# fflag option parsing, modelled in Dafny

fflag is a Go library that parses command lines by POSIX and GNU rules.
A program builds a flag set and registers flags on it: a short rune, a long
name, a storage target, and options such as defaults, counters, repeats,
callbacks, aliases and mutex groups. It then hands the set its arguments.
Parsing walks the arguments in order:

- short flags and clusters (`-abc`, `-s=v`, `-sVALUE`) are resolved one rune at a time;
- long flags (`--name`, `--name=v`) are resolved through a prefix trie that also accepts unique abbreviations;
- a detached option-argument is taken from the next argument when its flag can use one;
- operands and a bare `--` are collected as output;
- the `-NUM` idiom, three POSIX switches (`PosixEquals`, `PosixDoubleHyphen`, `PosixOperandStop`) and a fail policy (exit, panic, continue, silent) change the details.

The project models that core. Each Dafny module stands for one Go file:

| module | Go file |
|---|---|
| `Runes` | runes.go |
| `Deque` | pkg/deque/deque.go |
| `Types` | pkg/types/types.go |
| `Coerce` | pkg/types/coerce.go |
| `Trie` (and `TrieScenario`, the package's test) | pkg/trie/trie.go |
| `Shup` | pkg/shup/set.go, trie.go, shup.go |
| `Flags` | flag.go: names, identities, formatting, flag options |
| `SetOps` | flag.go: testOrSet and its helpers |
| `Registration` | flag.go and flagset.go: Var, Equ, aliases, defaults, mutexes |
| `FlagState` | flagset.go, as functions over the flag set's state |
| `FlagSets` | flagset.go and parse.go, as the class `FlagSet` |
| `Parsing` | parse.go |
| `ParseProperties` | parse.go: properties of the parse loop |

`GoText` stands in for the parts of Go's `strconv` and `strings` that the core calls. `Wrappers` holds `Option`.

How the model is built:

- **The flag set.** It is the record `FlagState.St`. Flags live in an arena `flags: seq<Flag>`, and a `*Flag` pointer becomes a `nat` handle into it. An alias stores the handle of its target (`aliasFor`).
- **The class.** `FlagSets.FlagSet` holds that state in mutable fields, with the argument lists as two `Deque.Deque` objects. Its methods, loops included, are proved to leave exactly the state the functions of `FlagState`, `Registration`, `SetOps` and `Parsing` compute. The properties are proved once, on those functions.
- **Failures.** `log.Fatal`/`os.Exit` and `panic` become a `halt` field (`Exited(code)` or `Panicked(why)`). Every later operation leaves a halted state unchanged. `Failf` appends its message to an `errors` log unless the policy is silent.
- **Foreign code.** What the core calls and cannot see is a parameter, the record `Env`:
  - user `SetValue` implementations (a predicate on the text);
  - callbacks (a predicate on flag, text and position);
  - file contents (a function from path to lines);
  - the configuration (`Config`: reserved runes, default separator, the POSIX switches).
- **Integers.** Go's sized integers are `Types.IntKind` with explicit wrap-around (`Types.Wrap`). `int` and `uint` are 64 bits wide.

## Model

| member | source | states |
|---|---|---|
| Runes.FirstRune | runes.go:19-25 | the error rune comes back exactly when the string is empty; otherwise the first rune re-encoded, followed by the tail, is the whole string |
| Runes.FirstRuneCons | runes.go:23-24 | the first rune of c followed by a tail is c, and the tail comes back unchanged |
| Runes.RuneString | flag.go:446-451 | Go's string(r): one character, r itself for a scalar value, U+FFFD otherwise |
| Deque.Deque.constructor | pkg/deque/deque.go:62-65 | a deque holds exactly the given items |
| Deque.Deque.Push | pkg/deque/deque.go:10-12 | the item is added at the back, and everything before it is kept |
| Deque.Deque.Append | pkg/deque/deque.go:14-16 | the items are added at the back, in order |
| Deque.Deque.Pop | pkg/deque/deque.go:18-25 | fails exactly on an empty deque, returning the zero value and leaving the deque unchanged; otherwise removes and returns the last item |
| Deque.Deque.Peek | pkg/deque/deque.go:27-32 | fails exactly on an empty deque; otherwise returns the last item |
| Deque.Deque.Unshift | pkg/deque/deque.go:34-36 | the item is added at the front |
| Deque.Deque.Prepend | pkg/deque/deque.go:38-40 | the items are added at the front, in order |
| Deque.Deque.Shift | pkg/deque/deque.go:42-49 | fails exactly on an empty deque, returning the zero value and leaving it unchanged; otherwise removes and returns the first item |
| Deque.Deque.Front | pkg/deque/deque.go:51-56 | fails exactly on an empty deque; otherwise returns the first item |
| Deque.Deque.Clear | pkg/deque/deque.go:58-60 | the deque becomes empty |
| Deque.Deque.Init | pkg/deque/deque.go:62-65 | the deque holds exactly the given items |
| Deque.EqualV | pkg/deque/deque.go:67-77 | the length-and-elementwise loop answers true exactly when the two item sequences are equal |
| Deque.EqualP | pkg/deque/deque.go:79-89 | true exactly when the two deques hold equal items |
| Deque.Equal | pkg/deque/deque.go:91-93 | true exactly when the two deques hold equal items |
| Deque.PushPopRestores | pkg/deque/deque_test.go:37-52 | Pop after Push returns the pushed item and restores the deque |
| Deque.UnshiftShiftRestores | pkg/deque/deque_test.go:54-69 | Shift after Unshift returns the item and restores the deque |
| Coerce.ShiftPow2 | pkg/types/coerce.go:10-12 | 1 shifted left by n as a uint64: 2 to the n below 64, and 0 from 64 on |
| Coerce.Pow2m1 | pkg/types/coerce.go:14-20 | the loop computes the same value as the recursive definition, with the uint64 wrap-around written out |
| Coerce.Pow2m1Pow2 | pkg/types/coerce.go:14-20 | for 1 to 63 bits, pow2m1(n) is 2 to the n, minus 1 |
| Coerce.MinAndMax | pkg/types/coerce.go:23-41 | bool ranges over 0..1; a non-numeric type over 0..0 |
| Coerce.MinAndMaxKind | pkg/types/coerce.go:23-41 | for every integer kind, the computed bounds are that kind's true minimum and maximum |
| Coerce.FitsMeaning | pkg/types/coerce.go:58-61 | the no-test shortcut holds exactly for the same signedness and no more bits, and then the source range lies inside the target range |
| Coerce.RangeTestMeaning | pkg/types/coerce.go:49-70 | RangeTest lets a value through exactly when the kinds fit, or the value is between 0 and the target's maximum (a negative value is refused on the value path) |
| Coerce.RangeTestValuePath | pkg/types/coerce.go:65-69 | the value path compares the uint64 and int64 reinterpretations of the value with the target's bounds |
| Coerce.RangeTestSound | pkg/types/coerce.go:49-70 | a value RangeTest lets through is representable in the target kind |
| Coerce.UntestedDifference | pkg/types/coerce.go:254-256 | the as-written table skips the range test for exactly three pairs more than the corrected one: int to int32, uint to int64 and uint to uint32 |
| Coerce.CoerceBy | pkg/types/coerce.go:72-104 | nil gives the nil-argument error; a non-plain value is not convertible; success keeps the reference's base type; bool from an integer is the test n != 0 |
| Coerce.CoerceIntInt | pkg/types/coerce.go:109-694 | integer to integer: the value wraps to the target kind, and an error comes back unless the kinds are equal, the pair is untested, or the range test passes |
| Coerce.CoerceTruncatesAsWritten | pkg/types/coerce.go:254-256 | the as-written table coerces int 2^40 to int32 as 0 with no error |
| Coerce.CoerceScalarKeepsValue | pkg/types/coerce.go:72-694 | the corrected coercion never changes an integer it accepts, and accepts every value the target can hold (a negative one only when the kinds fit) |
| Coerce.CoerceVersionsAgree | pkg/types/coerce.go:72-694 | the two tables agree on every input other than the three pairs |
| Coerce.CoerceIntToInt8 | pkg/types/coerce.go:155-163 | int to int8 wraps, and succeeds exactly for 0..127 |
| Coerce.CoerceInt8Examples | pkg/types/coerce_test.go:7-29 | 100 becomes 100; 500 becomes -12 with an error; -5 is an error |
| Types.SetBit | pkg/types/types.go:33-41 | the bit is set and every other bit is kept |
| Types.ClrBit | pkg/types/types.go:43-51 | the bit is cleared and every other bit is kept |
| Types.SetClrTst | pkg/types/types_test.go:24-56 | Tst sees a set bit and not a cleared one; clearing after setting is clearing |
| Types.SameBaseType | pkg/types/types.go:65-68 | equal exactly when the types differ at most in the pointer and slice bits |
| Types.BitSize | pkg/types/types.go:71-77 | the width code gives 0, 8, 16, 32 or 64 bits |
| Types.IntBits | pkg/types/types.go:80-87 | the loop computes the width code of a 64-bit int |
| Types.KindType | pkg/types/types.go:90-260 | the type id of an integer kind has that kind's width and exactly one of the int/uint bits, and no other bit |
| Types.KindTypeCollisions | pkg/types/types.go:90-260 | two kinds share a type id exactly when they are int/int64 or uint/uint64 |
| Types.TypeBits | pkg/types/types.go:90-260 | the pointer, slice, setter and other bits match the value's shape, and only nil has type 0 |
| Types.PointerSliceSameBase | pkg/types/types.go:65-68 | a pointer to a value, a slice of it and a pointer to a slice have its base type; bool and string do not |
| Types.SliceLen | pkg/types/types.go:314-383 | -1 for what is not a slice |
| Types.SliceLenType | pkg/types/types.go:314-383 | non-negative exactly for a slice or a pointer to one, and then the number of items |
| Types.ItemAt | pkg/types/types.go:387-528 | nil exactly out of bounds; otherwise the i-th item |
| Types.StrConvOf | pkg/types/types.go:580-594 | an empty slice formats as the empty string |
| Types.StrConv | pkg/types/types.go:580-809 | the loop over the items builds the separator-joined text of the formatted items |
| Types.JoinSnoc | pkg/types/types.go:604-612 | appending one formatted item after a separator extends the join |
| Types.ParseItem | pkg/types/types.go:836-1086 | a parsed item has the requested base type; a string is taken as it is |
| Types.ParseItemMeaning | pkg/types/types.go:836-1086 | a bool parses as ParseBool does; a signed integer parses exactly when the text is decimal and in range, an unsigned one when it is all digits and in range, and the value is the text's value |
| Types.FromStrOf | pkg/types/types.go:811-1086 | the target keeps its kind, and Test leaves it unchanged |
| Types.FromStrShape | pkg/types/types.go:811-834 | a non-pointer is refused, an unsupported type too; only a pointer target changes, and a slice target keeps its earlier items |
| Types.FromStr | pkg/types/types.go:811-1086 | the loop over the split items computes the same result as FromStrOf |
| Types.FromStrIntoList | pkg/types/types.go:836-1086 | into a slice, the text is split at the separator and each trimmed item is parsed and appended until one fails |
| Types.StrConvFromStrList | pkg/types/more_test.go:357-369 | a slice formatted by StrConv with a one-character separator reads back through FromStr as the same slice |
| Types.StrConvFromStrScalar | pkg/types/types.go:580-1086 | a scalar formatted by StrConv reads back through FromStr as the same scalar |
| Flags.IsValidShort | flag.go:394-402 | panics exactly on a reserved rune; otherwise true exactly for a letter or digit |
| Flags.ValidShortIsName | flag.go:394-402 | a valid short is a scalar rune, not "no short", and none of '/', '-', '=' |
| Flags.IsValidLong | flag.go:405-423 | the loop answers true exactly when the name has at least two runes, starts with a letter or digit, and has only letters, digits and '-' |
| Flags.ValidLongIsName | flag.go:405-423 | a valid long name is not "no long" and has neither '/' nor '=' |
| Flags.IsValidPair | flag.go:425-444 | panics exactly on a reserved short of a named pair; otherwise says whether short and long are each empty or valid, and not both empty |
| Flags.ID | flag.go:446-451 | panics exactly when the pair check panics; the empty id exactly for an invalid pair |
| Flags.UnID | flag.go:465-485 | the empty id gives the empty-string error rune; a successful split gives a valid pair; a failure is one of the four error runes |
| Flags.IdRoundTrip | flag_test.go:28-54 | UnID inverts ID on every valid pair |
| Flags.UnIdRoundTrip | flag_test.go:28-54 | ID inverts UnID on every id that splits into a valid pair |
| Flags.IdTable | flag_test.go:28-54 | the test's rows: "e/example", "e/", a missing short, a missing long, and the empty id |
| Flags.Resolve | flag.go:744-746 | an alias chain ends at a flag in the arena |
| Flags.DefaultOf | flag.go:757-772 | panics for an alias, or a slice default with no item; otherwise the first item of a slice default, or the default itself |
| Flags.InDefaultsFrom | flag.go:776-800 | a member when some default coerces to itself; a coercion error is reported from the item that raised it; not a member when every item coerces cleanly to something else |
| Flags.InDefaultsAt | flag.go:776-800 | panics exactly for an alias; a non-slice default accepts everything |
| Flags.InDefaultsMeaning | flag.go:776-800 | membership holds exactly when some default item is unchanged by coercing the value to it, with the as-written coercion table |
| Flags.GetTypeTag | flag.go:822-845 | the tag is empty exactly when there is no explicit tag, at most one default, and a target that is neither numeric nor string |
| Flags.String | flag.go:852-863 | empty exactly for a flag with no short and no long name of two or more runes; otherwise "-s" leads and "--long" ends |
| Flags.FormatShort | flag.go:865-882 | "-NUM" for the hyphen-number flag, empty with no short; otherwise "-s", followed by the type tag unless the flag is an alias or has no tag |
| Flags.FormatLong | flag.go:884-898 | empty exactly without a long name; otherwise "--long", plus the tag unless the flag is an alias or has no tag |
| Flags.FlagString | flag.go:901-913 | short and long joined by ", "; a long-only flag indented four spaces; a short-only flag as its short form |
| Flags.SortKeyInterleaves | flag.go:937-952 | sort keys interleave short-and-long and long-only flags alphabetically |
| Flags.AliasNeverBool | flag.go:1238-1273 | an alias has no target, so IsBool (flag.go:1305) is false for it |
| Flags.WithListSeparatorOf | flag.go:975-986 | panics for the hyphen-number flag or a non-slice target; otherwise only the separator changes |
| Flags.WithRepeatsOf | flag.go:1067-1091 | panics for the hyphen-number flag, a callback, a counter or a slice; otherwise only the repeat bits change |
| Flags.RepeatsType | flag.go:1067-1091 | the repeat bit is set, the ignore bit follows the argument, and other bits are kept |
| Flags.AsCounterOf | flag.go:1093-1113 | panics for the hyphen-number flag, a callback, a slice, a non-number or a repeatable flag; otherwise only the counter bit is added |
| Flags.CounterType | flag.go:1093-1113 | the counter bit is set and the other bits are kept |
| Flags.WithCallbackOf | flag.go:1144-1152 | panics exactly for a counter; otherwise only the callback is set |
| Flags.ReadFileOf | flag.go:1156-1176 | panics for the hyphen-number flag, a counter, a callback, an alias or a non-slice; otherwise only the file bit is set |
| Flags.ApplyLocal | flag.go:958-973 | the local options keep the flag's names and identity; withValue sets the text value; NotImplemented and Deprecated set their bits (flag.go:1119-1142) |
| Flags.NewFlagFrom | flag.go:1191-1236 | nil for a non-pointer or non-empty-slice target; panics for an unsupported type, an invalid pair, or a hyphen-number flag that is not an unsigned scalar; otherwise a fresh flag with count 0 and a slice marked repeatable |
| Flags.NewFlagOf | flag.go:1191-1236 | the same, stated on the target's type bits |
| Flags.AliasType | flag.go:1238-1273 | the short-alias bit is set and the other bits are kept |
| Flags.NewAliasOf | flag.go:1238-1273 | panics exactly for an invalid pair; otherwise an alias of the handle, with no target, count -1 and the target's flag type |
| Flags.SaveFileBit | flag.go:516-528 | the file bit moves to the saved-file bit |
| Flags.RestoreFileBit | flag.go:536-546 | the saved-file bit moves back to the file bit |
| Flags.EnterCallback | flag.go:516-528 | panics exactly without a callback; otherwise saves the callback and the file bit and clears both |
| Flags.ExitCallback | flag.go:536-546 | panics exactly when a callback is set; otherwise restores both |
| Flags.EnterExitRestores | flag.go:516-546 | entering and then leaving a callback gives back the callback and the file-reader bit |
| FlagState.NewFlagSetOf | flagset.go:123-145 | a fresh set has one "Options" group, no flags, an empty trie and dictionaries, the default fail policy and no failure |
| FlagState.ApplySetOption | flagset.go:149-185 | WithGroupTitle renames the first group; each fail option sets its bit and changes nothing else |
| FlagState.ApplySetOptionsOf | flagset.go:140-142 | the options touch only the titles and the fail policy |
| FlagState.SetOptionsAccumulate | flagset.go:140-142 | the fail bits accumulate: each one given, or already set, is set afterwards |
| FlagState.FailfOf | flagset.go:374-385 | logs the message unless silent; a continuing policy goes on; otherwise the run panics with the message or exits with the fail code; a halted state is unchanged |
| FlagState.PanicOf | flagset.go:381-383 | a panic halts the run, unless it is already halted |
| FlagState.FailfContinues | flagset.go:378-380 | under a continue-but-not-silent policy, Failf only logs |
| FlagState.LookupShortOf | flagset.go:223-234 | found exactly when the rune is in the short dictionary; "no short" only under the -NUM idiom |
| FlagState.LookupLongOf | flagset.go:205-219 | a one-rune name tries the short dictionary first, then the trie; longer names use the trie only |
| FlagState.LookupOf | flagset.go:240-248 | a string is looked up as a long name, a rune as a short, anything else finds nothing |
| FlagState.LookupInArena | flagset.go:205-248 | a found handle points into the arena |
| FlagState.LookupLongPrefersShort | flag_test.go:263-323 | a one-letter long lookup takes the short flag when there is one |
| FlagState.LookupLongFallsBack | flagset.go:205-213 | without such a short flag it uses the trie |
| FlagState.NewFlagGroupOf | flagset.go:91-96 | an empty group with the title is appended and made current |
| FlagState.TotalFlagsPositive | flagset.go:189-195 | HasFlags holds exactly when some group lists a flag |
| FlagState.StartGroupOf | flagset.go:108-117 | a set with one empty group renames it; otherwise a new group is started |
| FlagState.Listed | flagset.go:189-195 | the listed handles number the same as the flags counted over all groups |
| FlagState.ResetOf | flagset.go:432-446 | the argument lists empty, every mutex is released, the counts of listed flags are zeroed, and nothing else changes |
| FlagState.ResetIdempotent | flagset.go:432-446 | resetting twice is resetting once |
| FlagState.ResetKeepsOk | flagset.go:432-446 | Reset keeps the state well formed |
| FlagState.MaxOf | flagset.go:404-412 | the maximum bounds every length and is one of them, 0 when there are none |
| FlagState.FlagStringMaxLenBounds | flagset.go:404-412 | FlagStringMaxLen bounds the FlagString of every listed flag and equals one of them |
| FlagState.AppendToGroup | flagset.go:294 | the handle is appended to the current group only |
| FlagState.AddShortOf | flagset.go:272-294 | the flags and the argument lists are kept; a refusal leaves the groups unchanged |
| FlagState.AddShortRegisters | flagset.go:272-294 | the trie and the mutexes are untouched; success lists the flag in the current group |
| FlagState.AddShortMarks | flagset.go:275-293 | success enters the short (or "no short" for -NUM) in the dictionary and updates the -NUM and digit-short markers |
| FlagState.AddShortErrors | flagset.go:272-293 | each of the four refusals happens exactly under its condition: duplicate short, digit under -NUM, -NUM twice, -NUM after digit shorts |
| FlagState.AddFlagOf | flagset.go:258-296 | a nil flag is refused and changes nothing; the flags and argument lists are kept |
| FlagState.AddFlagChecks | flagset.go:258-264 | the pair check's panic halts the run, and an invalid pair is refused |
| FlagState.AddFlagRefusals | flagset.go:265-270 | a duplicate long exactly when the trie refuses the name; a refusal leaves the groups unchanged |
| FlagState.AddFlagSteps | flagset.go:265-294 | the long name goes into the trie first, then the short checks run |
| FlagState.AddFlagKeepsOk | flagset.go:258-296 | AddFlag keeps the state well formed |
| FlagState.AddFlagFindable | flagset.go:258-296 | after a successful add, the flag is found by its short, its long, or as the -NUM flag |
| FlagState.AddFlagRejectsDuplicateShort | flagset.go:272-274 | a second flag with a taken short is refused and not listed |
| FlagState.AddFlagRejectedKeepsLong | flagset.go:265-274 | but its long name stays in the trie |
| FlagState.AddFlagHyphenNumRules | flagset.go:275-293 | the -NUM idiom excludes digit shorts and a second -NUM flag |
| SetOps.RunFailf | flag.go:1318-1320 | Failf on the small run record keeps the flag and the policy and halts unless continuing |
| SetOps.RunFailfIsFailf | flag.go:1318-1320 | it agrees with the flag set's Failf |
| SetOps.RunPanic | flag.go:559-705 | a panic halts the run and keeps the log |
| SetOps.FailIf | flag.go:559-705 | under Test nothing is logged; under Set the failure is |
| SetOps.Counted | flag.go:587-589 | the count goes up by one and nothing else changes |
| SetOps.Claim | flag.go:494-508 | every mutex stays known |
| SetOps.ClaimMeaning | flag.go:494-508 | the claim succeeds exactly when every group of the flag is free, then marks exactly those groups; a collision names a claimant of one of them |
| SetOps.ClaimOrderFree | flag.go:494-508 | success, the new claims, and the validity of a reported claimant do not depend on the order of the groups |
| SetOps.ClaimTwice | flag.go:494-508 | claiming the same groups again collides with the flag itself |
| SetOps.ClaimBounded | flag.go:494-508 | a claim only ever records the flag itself |
| SetOps.MutexCollidesOf | flag.go:494-508 | only the mutex map changes, and every mutex stays known |
| SetOps.TestOrSetOnlyOf | flag.go:718-741 | keeps the flag's identity, and under Test everything |
| SetOps.Converted | flag.go:733 | only the target value changes, by FromStr with the flag's separator |
| SetOps.TestOrSetOnlyMeaning | flag.go:718-741 | succeeds exactly when the value is text (or has text) and FromStr accepts it, and then stores FromStr's result; Test changes nothing |
| SetOps.TestOrSetOf | flag.go:548-705 | only the alias target, the mutexes and the log can change; a mutex collision exactly when the claim fails |
| SetOps.AfterClaimOf | flag.go:590-705 | after the claim, no collision can be reported |
| SetOps.SetterOf | flag.go:565-578 | a SetValue target is set through its own Set and keeps the flag |
| SetOps.ChainOf | flag.go:590-704 | the chain after the count keeps the flag's identity, and under Test everything; a callback flag's run and target are left unchanged (flag.go:656-662) |
| SetOps.CounterOf | flag.go:590-606 | a counter keeps the flag's identity |
| SetOps.CallbackOf | flag.go:656-662 | a callback fails exactly when, under Set, it refuses the text |
| SetOps.NilValueOf | flag.go:675-692 | a nil value keeps the flag's identity |
| SetOps.DefaultsOf | flag.go:693-703 | the enum check keeps the flag's identity |
| SetOps.ReaderOf | flag.go:608-654 | the file reader keeps the flag's identity |
| SetOps.LinesOf | flag.go:624-653 | each line is set in turn, keeping the flag's identity |
| SetOps.SetCounts | flag_test.go:56-93 | Set raises the target's count by one and Test changes no flag; Set is claim, count, then the chain |
| SetOps.SetRefusesRepeat | flag.go:664-669 | an ordinary flag set a second time is refused, though its count still rises |
| SetOps.CounterStoresCount | flag_test.go:169-184 | a counter stores its count as its value |
| SetOps.NilTogglesBool | flag.go:675-685 | a bool set with nil becomes the negation of "default is true" |
| SetOps.NilTakesDefault | flag.go:686-692 | any other flag set with nil takes its default, or is refused without one |
| SetOps.EnumRefuses | flag_test.go:133-167 | a value is refused as not in the defaults exactly when no default item survives the coercion unchanged, and then the flag is unchanged |
| SetOps.RepeatIgnored | flag.go:671-673 | an ignored repeat is accepted and changes nothing |
| SetOps.SetKeepsOk | flag.go:559-705 | testOrSet keeps the state well formed |
| Registration.InMutexOf | flag.go:1178-1189 | registers the mutex as free; joining a group twice panics, otherwise the name is appended to the flag's groups |
| Registration.InMutexDistinct | flag.go:1178-1189 | after InMutex the flag's groups are distinct, include the name, and the name is free |
| Registration.WithDefaultRecorded | flag.go:1021-1065 | the default is recorded; an optional default sets its bit; nothing else changes |
| Registration.SetupDefaultOf | flag.go:1021-1050 | the flag's identity is kept |
| Registration.SetupDefaultRefuses | flag.go:1021-1037 | a default of the wrong type is refused with a halt and changes nothing else |
| Registration.OptionalDefaultLeavesTarget | flag.go:1058-1065 | an optional default is recorded and the target is not written |
| Registration.DefaultIsWritten | flag.go:1038-1049 | a required default is written to the target through FromStr, and fails exactly when FromStr does |
| Registration.FlagOptionOf | flag.go:958-1176 | every flag option keeps the flag's identity |
| Registration.OptionalDefaultNotForBool | flag.go:1058-1065 | an optional default on a bool flag halts |
| Registration.ObsoleteType | flag.go:988-1019 | the obsolete bit follows the argument and the other bits are kept |
| Registration.AddAliasOf | flag.go:988-1019 | the alias is appended to the arena |
| Registration.AddAliasLists | flag.go:988-1019 | the alias is listed in the current group |
| Registration.MustAddOf | flagset.go:311-314 | the flags and the argument lists are kept, and the state stays well formed |
| Registration.MustAddResult | flagset.go:311-314 | an add error halts the run; success takes the added state as it is |
| Registration.MakeAliasOf | flag.go:988-1019 | the flags so far are kept, and the state stays well formed |
| Registration.WithAliasOf | flag.go:988-1019 | the same, for the WithAlias option |
| Registration.WithAliasAppends | flag.go:988-1019 | a successful WithAlias appends exactly one alias of the handle with the given names and obsolete bit, listed in the current group, and its names were unused |
| Registration.ApplyOptionOf | flag.go:1191-1236 | an option keeps the flag's names |
| Registration.ApplyOptionsOf | flag.go:1191-1236 | the options keep the flag's names; a halted state is unchanged |
| Registration.VarOf | flagset.go:302-315 | Var keeps a halted state unchanged and the state well formed |
| Registration.BuildOf | flagset.go:302-315 | building keeps the state well formed |
| Registration.VarRefusesTarget | flagset.go:302-310 | a target NewFlag cannot use panics with "failed to create new flag" |
| Registration.Registered | flagset.go:258-296 | an added flag is listed in the current group and found by its short and long names |
| Registration.VarRegisters | flagset.go:302-315 | a Var that succeeds creates the flag, applies its options, lists it and makes it findable by both names |
| Registration.EquOf | flagset.go:329-340 | Equ keeps a halted state unchanged |
| Registration.EquNeedsTarget | flagset.go:329-334 | an unknown equivalent panics with "flag not found in equivalent lookup" |
| Registration.EquAppends | flagset.go:329-340 | a successful Equ appends one alias of the equivalent flag carrying the fixed text value, listed in the current group |
| Registration.OptionsKeepOk | flag.go:1191-1236 | applying options keeps the state well formed |
| Registration.EquKeepsOk | flagset.go:329-340 | Equ keeps the state well formed |
| Parsing.IsFlagArg | parse.go:87-97 | on a sane mask, the flag bit; otherwise a panic |
| Parsing.IsShortFlagArg | parse.go:105-111 | on a sane mask, a flag that is neither long nor a cluster |
| Parsing.IsLongFlagArg | parse.go:114-124 | on a sane mask, a long flag |
| Parsing.IsClusterArg | parse.go:127-137 | on a sane mask, a cluster |
| Parsing.HasParamArg | parse.go:144-157 | on a sane mask, the parameter bit |
| Parsing.IsNonFlagArg | parse.go:159-173 | on a sane mask, not a flag |
| Parsing.SaneExactly | parse.go:87-173 | the mask predicates all answer without panicking exactly on sane masks |
| Parsing.ParseSingleArg | parse.go:175-259 | the mask is sane; an argument is a flag exactly when it has two or more characters, starts with '-' and is not "--"; an operand's text is the parameter |
| Parsing.HyphenArg | parse.go:177-216 | after "--" nothing is a flag; "--" alone is the double-hyphen operand |
| Parsing.OperandShapes | parse.go:177-216 | "-", "--" and arguments not starting with '-' get their operand masks |
| Parsing.FlagArg | parse.go:218-257 | a flag mask, long exactly for "--" arguments |
| Parsing.FlagArgParam | parse.go:218-257 | the parameter is what follows the first '=', and a long name is what precedes it |
| Parsing.ParamSplit | parse.go:218-257 | the same, stated on the whole argument |
| Parsing.NumberBits | parse.go:240-256 | one rune is a number exactly when it is a digit; a cluster is a number exactly when it has no parameter, is all digits and fits in 64 bits |
| Parsing.SetOfOk | flag.go:559-705 | testOrSet is a setter the parse loop can use: it keeps the state well formed and the lookups unchanged |
| Parsing.SetOrFailOf | parse.go:306-311 | a failed Set goes to Failf; the lookups are kept |
| Parsing.OptArg | parse.go:295-298 | the rest of a cluster, with "=" and the parameter appended when there is one |
| Parsing.KnownUpTo | parse.go:274-317 | the first rune of the cluster that is not a known short, or its end |
| Parsing.NilSets | parse.go:306-311 | every known rune before the last is set with nil, keeping the lookups |
| Parsing.ClusterOf | parse.go:274-317 | the arena and the argument lists are kept; a returned flag is in the arena and the run is not halted |
| Parsing.MissOf | parse.go:281-304 | an unknown rune goes to the -NUM flag, or the rest of the cluster becomes the previous flag's option-argument |
| Parsing.UnknownFirstPanics | parse.go:299 | an unknown first rune with no -NUM flag dereferences nil |
| Parsing.ClusterReturnsLast | parse.go:313-316 | a flag comes back exactly when every rune is known, and it is the last one, the others set with nil |
| Parsing.StopParsingOf | parse.go:321-327 | the rest of the input, with its head dropped when shifting, moves to the output |
| Parsing.ConsumeOf | parse.go:428-437 | the head of the input is shifted off unless the run is halted |
| Parsing.StepOf | parse.go:333-377 | one step keeps the state well formed, and either ends the loop or shortens the input |
| Parsing.ArgOf | parse.go:336-377 | operands, clusters and named flags are dispatched, and the input never grows |
| Parsing.NamedOf | parse.go:359-376 | a named flag is looked up; the result keeps the arena |
| Parsing.UnknownOf | parse.go:361-375 | an unknown flag fails and leaves the input |
| Parsing.AfterFlagOf | parse.go:378-405 | after a flag, the input never grows |
| Parsing.PeekOf | parse.go:406-447 | peeking at the next argument never grows the input |
| Parsing.PeekDashesOf | parse.go:409-422 | a peeked "--" either ends the loop or is tested |
| Parsing.TestDashesOf | parse.go:416-430 | a "--" tested as the option-argument never grows the input |
| Parsing.ParseFrom | parse.go:329-450 | the loop ends with the input used up or the run halted; a halted run is unchanged |
| Parsing.ParseOf | parse.go:452-455 | Parse loads the arguments and ends with them used up or the run halted |
| ParseProperties.OperandsExactly | parse.go:336-349 | exactly "-", "--", the empty string and arguments not starting with '-' are operands, and the IsDoubleHyphen branch after the operand branch is dead |
| ParseProperties.OperandStep | parse.go:336-343 | an operand is pushed to the output as given; under PosixOperandStop the rest follows it and parsing ends |
| ParseProperties.OperandStopsParse | parse.go:321-343 | under PosixOperandStop, parse returns at the first operand with it and everything after it as output |
| ParseProperties.DoubleHyphenIsOperand | parse.go:336-343 | a top-level "--" is an operand: kept in the output, and under GNU rules parsing continues |
| ParseProperties.PosixEqualsSets | parse_test.go:65-86 | "-s=v" sets s with "=v" under PosixEquals and with "v" otherwise |
| ParseProperties.PeekedDoubleHyphen | parse_test.go:36-63 | a "--" after a flag ends parsing under GNU rules; under PosixDoubleHyphen it becomes the option-argument when Test accepts it |
| ParseProperties.DetachedConsumedIffSet | parse.go:432-441 | a detached option-argument is shifted off exactly when its Set succeeds |
| ParseProperties.BoolNeverConsumes | parse.go:433-447 | a bool flag never takes the next argument and is set with nil |
| ParseProperties.AliasOfBoolTriesDetached | parse.go:433 | an alias of a bool is not a bool, so the next argument is tried as its option-argument |
| ParseProperties.ParseUsesInput | parse.go:449 | an unhalted parse uses up its input; an already halted one changes only the input it was given |
| FlagSets.FlagSet.constructor | flagset.go:123-145 | the new set's state is NewFlagSet's after its options |
| FlagSets.FlagSet.ApplyOption | flagset.go:149-185 | the state is updated as ApplySetOption says |
| FlagSets.FlagSet.Failf | flagset.go:374-385 | the state is updated as FailfOf says |
| FlagSets.FlagSet.Panic | flagset.go:381-383 | the state is updated as PanicOf says |
| FlagSets.FlagSet.NewFlagGroup | flagset.go:91-96 | returns the new group's index, with the group empty and titled |
| FlagSets.FlagSet.StartGroup | flagset.go:108-117 | the state is updated as StartGroupOf says |
| FlagSets.FlagSet.HasFlags | flagset.go:189-195 | the loop over groups answers whether some group has a flag |
| FlagSets.FlagSet.LookupShort | flagset.go:223-234 | returns LookupShortOf's answer |
| FlagSets.FlagSet.LookupLong | flagset.go:205-219 | returns LookupLongOf's answer |
| FlagSets.FlagSet.Lookup | flagset.go:240-248 | returns LookupOf's answer |
| FlagSets.FlagSet.AddFlag | flagset.go:258-296 | updates the state and returns the error as AddFlagOf says |
| FlagSets.FlagSet.AddShort | flagset.go:272-294 | updates the state as AddShortOf says |
| FlagSets.FlagSet.Var | flagset.go:302-315 | updates the state as VarOf says |
| FlagSets.FlagSet.Build | flagset.go:302-315 | updates the state as BuildOf says |
| FlagSets.FlagSet.ApplyOptions | flag.go:1191-1236 | the loop over the options updates the state as ApplyOptionsOf says |
| FlagSets.FlagSet.MustAdd | flagset.go:311-314 | updates the state as MustAddOf says |
| FlagSets.FlagSet.Equ | flagset.go:329-340 | updates the state as EquOf says |
| FlagSets.FlagSet.AddAlias | flag.go:988-1019 | updates the state as AddAliasOf says |
| FlagSets.FlagSet.FlagStringMaxLen | flagset.go:404-412 | the nested loop returns FlagStringMaxLenOf, proved maximal by FlagStringMaxLenBounds |
| FlagSets.FlagSet.MaxLenOver | flagset.go:404-412 | the inner loop over one group extends the running maximum |
| FlagSets.FlagSet.Reset | flagset.go:432-446 | the loops and list clearing leave exactly ResetOf's state |
| FlagSets.FlagSet.ReleasedMutexes | flagset.go:436-438 | the loop over the mutexes releases every one |
| FlagSets.FlagSet.ZeroedCounts | flagset.go:439-445 | the loop over the groups zeroes the count of every listed flag |
| FlagSets.FlagSet.MutexCollides | flag.go:494-508 | the loop over the flag's groups updates the mutexes and returns the claimant as MutexCollidesOf says |
| FlagSets.FlagSet.TestOrSet | flag.go:548-705 | updates the state and returns the error as TestOrSetOf says |
| FlagSets.FlagSet.SetOrFail | parse.go:306-311 | updates the state as SetOrFailOf says |
| FlagSets.FlagSet.StopParsing | parse.go:321-327 | the argument deques change as StopParsingOf says |
| FlagSets.FlagSet.Consume | parse.go:428-437 | the input deque is shifted as ConsumeOf says |
| FlagSets.FlagSet.DisambiguateCluster | parse.go:274-317 | the loop over the cluster updates the state and returns the flag as ClusterOf says |
| FlagSets.FlagSet.ClusterStep | parse.go:278-316 | one rune of the cluster: the known ones so far are set with nil, or the cluster is finished |
| FlagSets.FlagSet.SetPrevNil | parse.go:306-311 | the previous rune's flag is set with nil |
| FlagSets.FlagSet.ClusterMiss | parse.go:281-304 | an unknown rune is handled as MissOf says |
| FlagSets.FlagSet.OptArgMiss | parse.go:295-304 | the rest of the cluster is set on the previous flag, or nil is dereferenced |
| FlagSets.FlagSet.Arg | parse.go:336-377 | one argument is handled as ArgOf says |
| FlagSets.FlagSet.Named | parse.go:359-376 | a named flag is handled as NamedOf says |
| FlagSets.FlagSet.Unknown | parse.go:361-375 | an unknown flag is handled as UnknownOf says |
| FlagSets.FlagSet.AfterFlag | parse.go:378-405 | what follows a flag is handled as AfterFlagOf says |
| FlagSets.FlagSet.Peek | parse.go:406-447 | the next argument is examined as PeekOf says |
| FlagSets.FlagSet.PeekDashes | parse.go:409-422 | a peeked "--" is handled as PeekDashesOf says |
| FlagSets.FlagSet.TestDashes | parse.go:416-430 | a "--" option-argument is handled as TestDashesOf says |
| FlagSets.FlagSet.ParseArgs | parse.go:329-450 | the parse loop leaves ParseFrom's state and returns nil |
| FlagSets.FlagSet.Next | parse.go:333-447 | one iteration either ends the loop where ParseFrom does, or shortens the input without changing where ParseFrom ends |
| FlagSets.FlagSet.Parse | parse.go:452-455 | Parse loads the arguments, leaves ParseOf's state and returns nil |
| Shup.SliceOf | pkg/shup/set.go:36-44 | the loop lists each element exactly once |
| Shup.Set.NewSet | pkg/shup/set.go:7-11 | the set holds exactly the given items |
| Shup.Set.Add | pkg/shup/set.go:13-17 | the items are added |
| Shup.Set.Has | pkg/shup/set.go:19-26 | true exactly when every item is in the set |
| Shup.Set.Del | pkg/shup/set.go:28-34 | the items are removed |
| Shup.Set.Slice | pkg/shup/set.go:36-44 | each element is listed exactly once |
| Shup.SetTest | pkg/shup/set_test.go:16-46 | the test's sequence of adds and deletes ends with the set {1, 3} |
| Shup.NewTrie | pkg/shup/trie.go:13-27 | nil exactly when no item is non-empty; otherwise a node holding the non-empty items |
| Shup.PlaceLevel | pkg/shup/trie.go:49-86 | placing one more string gives the same level as the whole set: Populate does not depend on map order |
| Shup.Populate | pkg/shup/trie.go:41-94 | the recursive population computes the populated node |
| Shup.PlaceAll | pkg/shup/trie.go:49-86 | the loop places every string, giving the level of the whole set |
| Shup.PlaceOne | pkg/shup/trie.go:50-85 | one string is placed under its first rune |
| Shup.PopulateChildren | pkg/shup/trie.go:88-93 | the loop populates every child |
| Shup.PopulatedRep | pkg/shup/trie.go:41-94 | a populated node represents the strings below its prefix |
| Shup.Descend | pkg/shup/trie.go:96-112 | the loop computes the walk down the trie |
| Shup.WalkFrom | pkg/shup/trie.go:99-110 | the walk returns a prefix of the string that is unique, or the whole string, together with the remnant |
| Shup.GoodAbbreviates | pkg/shup/trie.go:99-110 | what the walk returns abbreviates the string |
| Shup.ShortestUniquePrefixMap | pkg/shup/shup.go:5-17 | panics exactly when no string is non-empty; otherwise maps every non-empty string to an abbreviation, namely the walk's answer |
| Shup.DescendAll | pkg/shup/shup.go:9-15 | the loop maps every string to its walk |
| Shup.ShortestUniquePrefixIsShortest | pkg/shup/shup.go:1-2 | the specification: a unique prefix (or the string itself) with no shorter unique prefix |
| Shup.AbbreviatesBounds | pkg/shup/trie.go:99-110 | every abbreviation is the shortest unique prefix, or one rune longer |
| Shup.FooBarAsWritten | pkg/shup/trie.go:99-104 | for {"foo", "bar"}, the walk gives "fo" where the shortest unique prefix is "f" |
| Shup.FooBarMap | pkg/shup/shup.go:5-17 | ShortestUniquePrefixMap of {"foo", "bar"} maps "foo" to "fo" |
| Shup.DescendShortest | pkg/shup/trie.go:96-112 | the corrected loop stops at the rune that makes the prefix unique |
| Shup.UniqueStep | pkg/shup/trie.go:99-110 | the prefix one rune longer is unique exactly when the walk stops there |
| Shup.UniqueWalkFrom | pkg/shup/trie.go:99-110 | the corrected walk from any depth finds the shortest unique prefix from there |
| Shup.UniqueWalkIsShortest | pkg/shup/shup.go:1-2 | the corrected walk from the root is the shortest unique prefix |
| Shup.ShortestUniquePrefixMapIntended | pkg/shup/shup.go:5-17 | the corrected map sends every non-empty string to its shortest unique prefix |
| Shup.DescendAllShortest | pkg/shup/shup.go:9-15 | the corrected loop maps every string to its shortest unique prefix |
| Shup.FooBarMapIntended | pkg/shup/shup.go:5-17 | the corrected map sends "foo" to "f" |
| Trie.NewTrie | pkg/trie/trie.go:96-102 | a new trie is valid and stores nothing |
| Trie.PushDown | pkg/trie/trie.go:66-78 | a node's tail is pushed into a child |
| Trie.PushDownKeeps | pkg/trie/trie.go:66-78 | pushing down keeps validity and every stored key |
| Trie.AddContent | pkg/trie/trie.go:51-94 | Add either refuses and changes no key's content, or stores exactly the new key on a key that was absent |
| Trie.AddStoredIsDuplicate | pkg/trie/trie.go:52-58 | adding a stored key is refused |
| Trie.AddDuplicateWitness | pkg/trie/trie.go:52-58 | a refused key is a prefix of a stored key |
| Trie.GetExact | pkg/trie/trie.go:26-48 | Get finds every stored key |
| Trie.GetSound | pkg/trie/trie.go:26-48 | Get answers with the item of a stored extension of the key, the only such one when the key itself is not stored |
| Trie.AddCanonical | pkg/trie/trie.go:51-94 | Add keeps the trie canonical: no node without an item has exactly one key below it, at any depth |
| Trie.GetUnique | pkg/trie/trie.go:32-35 | a key with a unique stored extension finds it |
| Trie.AddPrefixOfUniqueRefused | pkg/trie/trie.go:52-86 | adding a prefix of a unique key is refused |
| Trie.RefusedAddOpensPath | pkg/trie/trie.go:66-86 | a refused add still pushes down the tails along its path |
| Trie.GetOnOpenPath | pkg/trie/trie.go:66-86 | along such a path, Get finds only exact keys |
| Trie.RefusedAddHidesPrefix | pkg/trie/trie.go:66-86 | after a refused add, the prefixes on its path no longer abbreviate |
| Trie.GetAmbiguous | pkg/trie/trie.go:43-47 | a key with two stored extensions finds nothing |
| Trie.AddFresh | pkg/trie/trie.go:60-93 | a key that is neither a prefix nor an extension of a stored key is added |
| TrieScenario.SixKeysContent | pkg/trie/trie_test.go:8-18 | the test's six adds store exactly its six keys |
| TrieScenario.SixKeysExact | pkg/trie/trie_test.go:20-32 | each key is found, and re-adding it is refused (trie_test.go:72-79) |
| TrieScenario.SixKeysAmbiguous | pkg/trie/trie_test.go:34-43 | "f", "fo", "b" and "ba" are ambiguous |
| TrieScenario.OnlyBazaar | pkg/trie/trie_test.go:45-57 | "baza" and "bazaa" abbreviate "bazaar" |
| TrieScenario.OnlyQuux | pkg/trie/trie_test.go:58-70 | "q", "qu" and "quu" abbreviate "quux" |
| TrieScenario.SixKeysTest | pkg/trie/trie_test.go:8-79 | the test's assertions, together |
| TrieScenario.QuuxReAdd | pkg/trie/trie.go:66-86 | re-adding "quux" is refused, yet afterwards "q" no longer finds it |

## Left out

- Unicode: strings are sequences of characters, and `unicode.IsLetter`/`unicode.IsNumber` are the ASCII letters and digits (Runes.IsLetter, Runes.IsNumber).
- `SetValue.Set` and user callbacks are predicates in `Env`. They cannot re-enter the flag set, and their side effects are not modelled.
- Map iteration order: a flag's mutex groups are claimed in list order. Go's map order is unspecified; SetOps.ClaimOrderFree shows that the outcome does not depend on it, apart from which claimant a collision reports.
- `WithParent` (flag.go:958-966) is modelled as leaving the flag unchanged. Its panic on a nil flag set is not modelled, because the arena has no nil handles.
- Shup.PlaceOne: Populate's panic "unexpected string error" (pkg/shup/trie.go:55-60) is dropped. Go raises it when a string's first rune is U+FFFD: a literal U+FFFD character, or invalid UTF-8 decoded as U+FFFD. A Dafny string cannot hold invalid UTF-8. A U+FFFD character, though, is an ordinary `char`, and the model places it like any other rune where Go panics.
- Trie.Get and Trie.Add: the panics "unexpected string error" in Get (pkg/trie/trie.go:36-42) and Add (pkg/trie/trie.go:67-70, 80-83) are dropped. Go raises them when the next rune that `firstRune` (pkg/trie/trie.go:15-24) returns is U+FFFD. The model treats U+FFFD as an ordinary rune. So for a long argument such as `--x\uFFFD`, where LookupLong (flagset.go:214) calls the trie's Get and Go panics, Trie.Get answers None and the model reports an unknown flag through Failf. AddFlag with such a long name stores it where Go panics.
- Failf messages keep their format string only. The formatted arguments and the output writer are left out (`WithOutputWriter`, Infof, Warnf).
- Floating-point flags and values are left out; `Types` covers bool, the ten integer kinds and string.
- The file reader's I/O is the function `Env.files` from a path to its lines; `OnFileError` and `FileErrExitCode` are not modelled.
- Trie.Add works on values: the in-place rewrite of a node's `Item`, `Tail` and `Nodes` is a new node. Nothing else holds a trie node, so nothing is lost.
- Shup.Populate works on values: the in-place population of a node is a new node; see Shup.PlaceAll and Shup.PopulateChildren for its loops.
- `*Flag` pointers are arena handles: no two flag sets share a flag, and `ParentFlagSet` (flag.go:487-492) is left out.
- `fs.Group()` (flagset.go:100-103) only reads the current group; the model reads `groups[groupIndex]` directly.
- The package-level `CommandLine` flag set and its wrappers (`Group`, `Var`, `Equ`, `Lookup`, `Parse`) are left out; they forward to the methods modelled here.
- Usage output is left out: Dump, DumpFlags, DumpUsage, DescString, GetDefaultDescription, AlignedFlagDescriptions, GetValue and `ArgMask.String`.
- `IgnoreDoubleDash` and the `-NUM` text format are not modelled beyond what parse.go reads.
- Go reflection is replaced by the closed union `Types.Value` (bool, integer and string; plain, pointer, slice, pointer to slice; or opaque).
- Parsing.ParseFrom: the IsDoubleHyphen branch after the operand branch (parse.go:344-349) cannot be taken (ParseProperties.OperandsExactly), so it is not modelled.
- FlagSets.FlagSet.ParseArgs: `parse` returns nil on every path; the method returns `None` and records failures in the state.
- Types.FromStr: its `doSet` parameter stands for testOrSetOnly's Test mode, in which the target is left unchanged.
- `TestOnly` and `SetOnly` (flag.go:707-716) are SetOps.TestOrSetOnlyOf with `doSet` false and true.
- `Flag.Test` and `Flag.Set` (flag.go:548-557) are SetOps.TestOrSetOf with `doSet` false and true.
- GetDefaultLen and IsSlice are helpers of the formatters and carry no separate contract.
- The demo programs under cmd/ and the tests are not modelled; the tests' assertions appear as lemmas where they state a property.

## Findings

| source | as written | input that shows it | evidently intended | confidence | as-written member | corrected member |
|---|---|---|---|---|---|---|
| pkg/types/coerce.go:254-256 | converting `int` to `int32` (likewise `uint` to `int64`, coerce.go:314-316, and `uint` to `uint32`, coerce.go:499-501) skips the range test, which holds only for a 32-bit `int` | `CoerceScalar(int32(0), int(1<<40))` gives `int32(0)` and no error on a 64-bit platform | a value the target cannot hold is reported as not representable | not executed | Coerce.CoerceTruncatesAsWritten | Coerce.CoerceScalarKeepsValue |
| pkg/shup/trie.go:99-104 | Descend appends the current rune before testing whether the node holds a single string, so the answer can be one rune longer than needed | `ShortestUniquePrefixMap(["foo", "bar"])` maps "foo" to "fo" | the shortest unique prefix, "f" (pkg/shup/shup.go:1-2) | not executed | Shup.FooBarAsWritten | Shup.UniqueWalkIsShortest |

The coercion row: `Flag.InDefaults` (flag.go:776-800) uses the coercion as written, as the program does, so a value outside the range of an `int32` default can still be accepted as a member. The corrected coercion, Coerce.CoerceScalarIntended, is proved to keep values (Coerce.CoerceScalarKeepsValue) and to agree with the as-written one on every other pair (Coerce.CoerceVersionsAgree).

The prefix row: Shup.ShortestUniquePrefixMapIntended uses the corrected descent Shup.DescendShortest and is proved to return the shortest unique prefix of every string. Shup.AbbreviatesBounds shows that the as-written answer is at most one rune longer.
