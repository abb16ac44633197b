# hyprlang configuration parser, modelled in Dafny

hyprlang is the configuration language of the Hyprland compositor. A host
program registers typed values, special categories (named, keyed or
anonymously numbered groups of values) and keyword handlers. It then calls
`commence()` and `parse()`. The parser reads the configuration line by line:
- it joins backslash-continued lines;
- it cuts comments and obeys `# hyprlang` directives;
- it keeps a stack of open `name {` categories;
- it expands `$variables` and `{{a op b}}` expressions;
- it stores each `name = value` into the cell it resolves to, or hands the
  line to the host's handlers;
- it collects the errors into one message.

This project models that engine (`src/config.cpp`) and the value cell
(`src/common.cpp`) as pure functions over one state record, `Registry.Config`.
Each line is a step `Config -> (Config, ParseResult)`, and a parse is a fold
of that step over the physical lines. Everything the parser cannot see is a
field of `Foreign.Host`, a record of total functions supplied by the caller:
- the host's handler and custom-type callbacks;
- `std::stof`, the alpha rounding of `rgba()`, expression arithmetic and
  `std::format` of a float;
- `SVariable::truthy`.

Modules, one per component of the source:

| module | models |
|---|---|
| `Results` | `CParseResult`, `Option`/`Result` wrappers |
| `Text`, `Numbers` | trim, find, split/join, `c_str()` truncation, decimal and hex text, int64 wrap-around, `stoll` |
| `Foreign` | the host record, `float` as an uninterpreted bit pattern |
| `Values` | `CConfigValue` (tag, payload, storage, `m_bSetByUser`) and `SConfigDefaultValue` |
| `Coerce` | `configStringToInt` |
| `Order` | `find_if`, `erase_if`, `std::ranges::sort` by name length |
| `LineReader` | `getNextLine` over a sequence of physical lines |
| `Registry` | the parser state and the registration API, `clearState` |
| `Directives` | `parseComment` and the `##` comment loop of `parseLine` |
| `Expand` | variable substitution, `{{…}}` expressions, `parseExpression`, unescaping |
| `Assign` | `configSetValueSafe` |
| `Handlers` | the handler fallback of `parseLine` |
| `Grammar` | `parseLine`, `parseVariable` |
| `Driver` | `parse`, `parseRawStream`, `parseFile`, `parseDynamic` |

## Model

| member | source | states |
|---|---|---|
| `Results.SetError` | src/common.cpp:7-17 | setError marks the result failed, and getError then returns exactly the message |
| `Numbers.Wrap64` | src/config.cpp:225 | the int64 colour sums: a value inside int64 is kept, and `Wrap64Congruent` states that any value is taken modulo 2^64 |
| `Numbers.Wrap64Congruent` | src/config.cpp:254 | the wrapped sum differs from the exact one by a multiple of 2^64 |
| `Numbers.StollDec` | src/config.cpp:274-277 | stoll in base 10 succeeds exactly when the signed decimal value fits int64, and then yields that value |
| `Numbers.StollHexOfDigits` | src/config.cpp:192-199 | base-16 digits read whole as their value when it fits int64, and as no value beyond it |
| `Numbers.DecValueOfNatToString` | src/config.cpp:405-406 | `std::to_string` of an anonymous number reads back as that number |
| `Numbers.NatToStringInjective` | src/config.cpp:405-407 | distinct anonymous numbers give distinct key texts |
| `Text.Trim` | src/config.cpp:670 | trim gives the middle slice of the text, with no whitespace at either end |
| `Text.TrimIdempotent` | src/config.cpp:670 | trimming an already trimmed line changes nothing |
| `Text.FindChar` | src/config.cpp:675 | `find` returns the first position of the character from the start index, or reports that there is none |
| `Text.SplitOnCount` | src/config.cpp:208-216 | splitting at the commas gives one more field than there are commas |
| `Text.JoinSplitOn` | src/config.cpp:210-216 | the fields read off at the commas join back into the text |
| `Text.SplitOnJoin` | src/config.cpp:210-216 | comma-free fields joined with commas split back into the same fields |
| `Text.CString` | src/config.cpp:835 | `c_str()` as a C string ends at the first NUL and is the text itself when it has none |
| `Text.Words` | src/config.cpp:537 | the word list of a directive (space-separated, removing empty tokens) holds only non-empty, space-free words |
| `Values.GetValue` | include/hyprlang.hpp:225-236 | a well-typed cell yields the payload of its own kind: the int, the float, the string, the vec2 or the custom pointer; an untyped cell is an error (the code terminates) |
| `Values.FromInt` | src/common.cpp:27-31 | the int64 constructor tags INT and stores the argument, not set by the user |
| `Values.FromFloat` | src/common.cpp:33-37 | the float constructor tags FLOAT and stores the argument |
| `Values.FromVec2` | src/common.cpp:39-43 | the vec2 constructor tags VEC2 and stores the argument |
| `Values.FromString` | src/common.cpp:45-49 | the string constructor tags STR and stores the text up to its first NUL |
| `Values.FromCustom` | src/common.cpp:51-55 | the custom constructor tags CUSTOM and keeps the callbacks and default text |
| `Values.DefaultFrom` | src/common.cpp:84-128 | defaultFrom succeeds exactly for a well-formed default, and an untyped default is refused with "bad defaultFrom type"; the cell takes the registered type, is well typed and is not set by the user; a non-STR cell that has storage keeps it, and STR always gets new storage |
| `Values.DefaultFromReadsBack` | src/common.cpp:84-128 | after defaultFrom the cell reads back the registered default |
| `Values.ResetKeepsStorage` | src/common.cpp:88-115 | repeated resets of an INT, FLOAT, VEC2 or CUSTOM cell keep the same storage |
| `Values.SetFrom` | src/common.cpp:130-163 | setFrom never changes the tag or `m_bSetByUser`; it writes every type except STR in place, and refuses CUSTOM and untyped cells with "bad defaultFrom type" |
| `Values.SetFromReadsBack` | src/common.cpp:130-163 | a value written with setFrom reads back |
| `Values.DefaultOf` | src/config.cpp:102-111 | the registry record built from a cell carries the cell's type |
| `Values.RegisterThenDefault` | src/config.cpp:98-112 | a registered value, reset from its default, reads back as the value registered |
| `Coerce.ParseHex` | src/config.cpp:192-200 | empty text fails; any failure is "invalid hex" and the text; a success means every character is a hex digit, a sign, an `x` or a space; hex digits succeed exactly when their value fits int64, and yield that value |
| `Coerce.InnerOf` | src/config.cpp:205 | the text between `fn(` and `)` is the inner text when that is already trimmed |
| `Coerce.ToInt` | src/config.cpp:191-278 | configStringToInt; its behaviour is stated form by form in the `Coerce.ToIntOf…` lemmas and `Coerce.ToIntOfBool` below, the function itself carries no postcondition |
| `Coerce.ToIntOfHex` | src/config.cpp:201-203 | `0x` followed by hex digits is plain base 16, with no byte rotation |
| `Coerce.ToIntOfRgbaHex` | src/config.cpp:226-233 | `rgba(RRGGBBAA)` in lower-case digits is reordered to ARGB |
| `Coerce.ToIntOfRgbHex` | src/config.cpp:255-261 | `rgb(RRGGBB)` in lower-case digits is opaque ARGB |
| `Coerce.RgbaHex` | src/config.cpp:226-233 | any eight hex digits, in either case, give `(v >> 8) + 0x1000000 * (v & 0xFF)` |
| `Coerce.RgbHex` | src/config.cpp:255-261 | any six hex digits, in either case, give `v + 0xFF000000` |
| `Coerce.Rgba` | src/config.cpp:205-236 | with three commas the only error is "failed parsing" and the inner text; with eight characters it is "invalid hex" and the text; any other shape is the length error |
| `Coerce.RgbaChannels` | src/config.cpp:208-225 | fails exactly when one of r, g, b fails to convert or the alpha is not a float, and then with "failed parsing" and the inner text |
| `Coerce.Rgb` | src/config.cpp:239-264 | with two commas the only error is "failed parsing" and the inner text; with six characters it is "invalid hex" and the text; any other shape is the length error |
| `Coerce.RgbChannels` | src/config.cpp:242-254 | fails exactly when one of r, g, b fails to convert, and then with "failed parsing" and the inner text |
| `Coerce.ToIntOfBool` | src/config.cpp:265-268 | text starting with true, on or yes is 1; text starting with false, off or no (and none of the first three) is 0 |
| `Coerce.ToIntOfRgbaText` | src/config.cpp:204-205 | `rgba(…)` is decided by the rgba rules applied to its inner text |
| `Coerce.ToIntOfRgbText` | src/config.cpp:238-239 | `rgb(…)` is decided by the rgb rules applied to its inner text |
| `Coerce.RgbOfFields` | src/config.cpp:242-254 | three comma-separated channels that convert to any int64 values give `0xFF000000 + r*0x10000 + g*0x100 + b`, wrapped to int64 |
| `Coerce.RgbaOfFields` | src/config.cpp:208-225 | four comma-separated fields give alpha (as a rounded byte) times 0x1000000 plus the int64 channels, wrapped to int64 |
| `Coerce.ToIntOfRgbChannels` | src/config.cpp:238-254 | `rgb(r,g,b)` whose channels convert to any int64 values is the wrapped opaque ARGB sum |
| `Coerce.ToIntOfRgbaChannels` | src/config.cpp:204-225 | `rgba(r,g,b,a)` whose channels convert to any int64 values and whose alpha is a float is the wrapped ARGB sum |
| `Coerce.DecimalChannel` | src/config.cpp:211 | a decimal channel inside int64 converts, once trimmed, to its value |
| `Coerce.SplitOfChannels` | src/config.cpp:208-216 | decimal channels joined with commas split back into the channels |
| `Coerce.JoinedChannels` | src/config.cpp:208-216 | comma-free channels joined with commas split back into the channels, with one comma fewer than channels, and need no trimming |
| `Coerce.DigitsNotSpecial` | src/config.cpp:265-271 | decimal digits are none of the hex, colour or boolean forms |
| `Coerce.ToIntOfPlain` | src/config.cpp:265-277 | text of no special form converts exactly when it is a number that stoll accepts; non-numeric text is the error `cannot parse "<v>" as an int.`, never a silent 0 |
| `Coerce.ToIntOfDigits` | src/config.cpp:271-276 | decimal digits inside int64 convert to their value |
| `Coerce.ToIntOfDecimal` | src/config.cpp:271-276 | the decimal text of a number inside int64 converts back to the number |
| `Coerce.ToIntOfHugeDecimal` | src/config.cpp:274-277 | a decimal number beyond int64 is the stoll error |
| `Coerce.ToIntOfNegative` | src/config.cpp:271-276 | a negative decimal inside int64 converts to itself |
| `LineReader.PhysicalLines` | src/config.cpp:48 | getline splits the buffer into newline-free lines |
| `LineReader.PhysicalLinesOfUnlines` | src/config.cpp:48-57 | lines written out newline-terminated are read back by getline unchanged |
| `LineReader.UnlinesOfPhysicalLines` | src/config.cpp:48-57 | the lines getline reads rebuild the buffer, with a final newline added if it lacked one |
| `LineReader.KeptLength` | src/config.cpp:54-55 | the backslash cut keeps exactly up to the last character before the trailing spaces and tabs |
| `LineReader.GetNextLine` | src/config.cpp:44-65 | end of input exactly at the end of the lines; a logical line is numbered by its first physical line; the physical-line count moves forward; a logical line never ends in a backslash |
| `LineReader.Continue` | src/config.cpp:53-62 | the join loop never reports end of input; a joined line keeps the number of its first physical line, ends with the last physical line it consumed and has no trailing backslash |
| `LineReader.PlainLine` | src/config.cpp:48-64 | a physical line without a trailing backslash is a logical line by itself |
| `LineReader.JoinTwo` | src/config.cpp:53-62 | `a`, blanks and a backslash, followed by `b`, give `a + b`, numbered by the first physical line, with two physical lines consumed |
| `LineReader.LastBackslashNeverRead` | src/config.cpp:57-58 | input that ends mid-join never yields a line containing the last physical line |
| `Directives.Scan` | src/config.cpp:542-562 | a `noerror` directive reads its switch from the third word |
| `Directives.ParseComment` | src/config.cpp:531-581 | a comment not starting with `hyprlang` changes nothing; the only error is `stray endif` on an empty if-stack; at most one frame is pushed |
| `Directives.IfPlain` | src/config.cpp:564-576 | `if v` fails exactly when v is unknown or not truthy |
| `Directives.IfNegated` | src/config.cpp:565-575 | `if !v` fails exactly when `if v` would not |
| `Directives.IfFails` | src/config.cpp:564-576 | a plain test fails exactly when the variable is unknown or not truthy; a `!` test fails exactly when it is known and truthy |
| `Directives.EndIf` | src/config.cpp:551-556 | `endif` is `stray endif` on an empty stack and otherwise pops one frame |
| `Directives.IfPushes` | src/config.cpp:558-577 | `if v` pushes one frame recording whether v failed |
| `Directives.NoError` | src/config.cpp:543-548 | `noerror` is on for true, yes, enable, enabled, set or nothing, and off otherwise |
| `Directives.IfThenEndIf` | src/config.cpp:551-577 | an `if` followed by an `endif` restores the flags |
| `Directives.StripFromIsDecomment` | src/config.cpp:652-668 | from any `#`, the comment loop computes the left-to-right reading: `##` is a literal `#`, and any other `#` ends the line |
| `Directives.StripCommentIsDecomment` | src/config.cpp:650-668 | the comment loop of parseLine computes the same reading on the whole line |
| `Directives.StripComment` | src/config.cpp:650-668 | never lengthens the line; a line without `#` is kept; the text before the first `#` is always kept |
| `Directives.Decomment` | src/config.cpp:650-668 | the left-to-right comment reading, never longer than the line; `Directives.StripCommentIsDecomment` ties the loop to it |
| `Expand.ValueOf` | src/config.cpp:596-597 | a lookup finds a variable of that name, or reports that there is none |
| `Expand.Operand` | src/config.cpp:602-620 | an operand fails exactly when stof rejects the variable's value, or the word itself when no variable has that name; the message says which case it is |
| `Expand.ParseExpression` | src/config.cpp:583-631 | an empty expression and an operator other than + - * / are errors; success needs both operands |
| `Expand.BackslashRun` | src/config.cpp:726-731 | counts exactly the backslashes right before a position |
| `Expand.LiveFrom` | src/config.cpp:722-740 | finds the first `{{` from a position whose preceding backslash run is even |
| `Expand.FirstLive` | src/config.cpp:721-743 | the first live `{{` of the text, or none |
| `Expand.NextSpan` | src/config.cpp:744-747 | the span starts at the first live `{{` and ends at the first `}}` after it; there is one exactly when such a `}}` exists |
| `Expand.Splice` | src/config.cpp:755 | replacing a span by its brace-free result removes at least two `{` |
| `Expand.ReplacingDropsBraces` | src/config.cpp:755 | the count behind the loop's termination |
| `Expand.ExpandExpressions` | src/config.cpp:721-758 | with no live `{{…}}` the text is unchanged; a successful result has no live span left |
| `Expand.EmptySpan` | src/config.cpp:588-589 | an empty `{{}}` fails the line with "Expression is empty" |
| `Expand.SubstOne` | src/config.cpp:701-717 | one variable replaces its `$name` on the right and, unless the line defines a variable, on the left; a match records the line |
| `Expand.SubstPass` | src/config.cpp:697-717 | a pass keeps every binding, leaves the LHS of a definition alone, and matches iff some variable is mentioned |
| `Expand.ExpandFrom` | src/config.cpp:697-767 | the later passes keep every binding and never substitute the LHS of a definition |
| `Expand.ExpandLine` | src/config.cpp:694-767 | the whole loop keeps the table's names and values and never substitutes the LHS of `$name = …` |
| `Expand.NothingToExpand` | src/config.cpp:697-761 | a line mentioning no variable and no live expression comes out unchanged |
| `Expand.SelfReferenceHitsLimit` | src/config.cpp:763-766 | a variable whose value mentions itself hits "Expanding variables exceeded max iteration limit" |
| `Expand.UnescapeInPlace` | src/config.cpp:774-791 | the in-place erase loop computes the left-to-right unescaping: `\\` to `\`, `\{` and `\}` to the brace |
| `Expand.UnescapeEscape` | src/config.cpp:774-791 | unescaping an escaped text gives the text back |
| `Expand.UnescapePlain` | src/config.cpp:776-778 | text without backslashes is left alone |
| `Expand.Unescape` | src/config.cpp:774-791 | the left-to-right unescaping never lengthens the text; `Expand.UnescapeEscape` is its inverse |
| `Registry.EnvVariable` | src/config.cpp:84-85 | an environment entry splits at its first `=`; an entry without one is both name and value |
| `Registry.EnvVariableOfEntry` | src/config.cpp:84-86 | the entry `n=v` gives back n and v |
| `Registry.NewConfig` | src/config.cpp:67-92 | the text is the stream or the path; the environment holds exactly the parsed `environ` entries, sorted longest name first; nothing is registered and the parser has not commenced |
| `Registry.ApplyDefaults` | src/config.cpp:184-189 | every key with a default gets a typed cell that is not set by the user; other cells are unchanged |
| `Registry.AddConfigValue` | src/config.cpp:98-112 | refused after commence; a new name gets its default and an existing one is kept |
| `Registry.Commence` | src/config.cpp:184-189 | commence gives every default a typed cell that is not set by the user |
| `Registry.AddThenCommence` | src/config.cpp:98-189 | a value registered before commence reads back from its cell |
| `Registry.ApplyDefaultsToCat` | src/config.cpp:178-182 | every default of the instance's descriptor is reset in the instance |
| `Registry.AddSpecialCategory` | src/config.cpp:146-171 | adds one descriptor (and, when it has no key, one static instance); both tables stay sorted, longest name first |
| `Registry.RemoveSpecialCategory` | src/config.cpp:173-176 | exactly the descriptors and instances of that name go |
| `Registry.RemoveSpecialCategoryDangles` | src/config.cpp:173-176 | the current special category is kept, so when it was an instance of the removed category it refers to nothing |
| `Registry.AddThenRemoveSpecialCategory` | src/config.cpp:146-176 | adding a category under a fresh name and then removing it restores the tables |
| `Registry.FindDescriptor` | src/config.cpp:115-118 | the first descriptor of that name: no earlier one has it; none when no descriptor has it |
| `Registry.RegisterSpecial` | src/config.cpp:120-134 | the default is added only if absent; no other descriptor changes; instance ids and anonymous numbers are kept |
| `Registry.RegisterSpecialResets` | src/config.cpp:130-133 | the first static instance of the category gets the cell reset to its default, not set by the user; its other cells and every other instance stay as they were; with no static instance no instance changes |
| `Registry.AddSpecialConfigValue` | src/config.cpp:114-135 | "No such category" for an unknown category; otherwise the name is registered |
| `Registry.AddSpecialConfigValueResets` | src/config.cpp:114-134 | a successful registration resets the cell in the first static instance of the category and leaves every other instance as it was |
| `Registry.RemoveSpecialConfigValue` | src/config.cpp:137-144 | removes exactly that default from the first descriptor of the name |
| `Registry.AddThenRemoveSpecialConfigValue` | src/config.cpp:114-144 | registering a fresh special value and removing it restores the defaults |
| `Registry.GetSpecialConfigValuePtr` | src/config.cpp:1037-1054 | the first instance of the category that is static or has the key decides: its cell of that name, or none when it lacks one; none when no instance qualifies |
| `Registry.SpecialCategoryExistsForKey` | src/config.cpp:1066-1078 | true exactly when a keyed instance of the category carries the key |
| `Registry.RetrieveKeysForCat` | src/config.cpp:1081-1112 | the listed keys are exactly those of the category's keyed instances |
| `Registry.RetrieveKeysAfterCreate` | src/config.cpp:1081-1112 | a new keyed instance adds its key at the end, so the order is the order of creation |
| `Registry.RegisterHandler` | src/config.cpp:1056-1060 | the handler is appended after the existing ones |
| `Registry.UnregisterHandler` | src/config.cpp:1062-1064 | exactly the handlers of that name go |
| `Registry.UnregisterAfterRegister` | src/config.cpp:1056-1064 | unregistering a name undoes registering it |
| `Registry.GetVariable` | src/config.cpp:517-529 | the environment is searched first and shadows the configuration's own variables |
| `Registry.ClearStateAsWritten` | src/config.cpp:1025-1030 | clearState as written: resets the stack, the error text and the variables, keeps exactly the static instances, and leaves the current special category as it was |
| `Registry.ClearStateAsWrittenDangles` | src/config.cpp:1025-1030 | when the current special category is a keyed or anonymous instance, it dangles after clearState |
| `Registry.ClearState` | src/config.cpp:1025-1030 | the corrected clearState also forgets the current special category and key, so nothing dangles |
| `Assign.SplitBracket` | src/config.cpp:293-301 | the key lies between the first `[` and the last `]`, and the name is the rest |
| `Assign.SplitBracketOfJoin` | src/config.cpp:293-301 | `prefix[key]suffix` splits back into key and prefix+suffix |
| `Assign.LeafAsWritten` | src/config.cpp:342 | the leaf as the code computes it throws when the name is exactly the category |
| `Assign.LeafAsWrittenThrows` | src/config.cpp:341-342 | a line naming just the category passes the prefix test and throws |
| `Assign.Leaf` | src/config.cpp:341-356 | the guarded leaf exists exactly when the name is longer than the category, and then agrees with the code |
| `Assign.LeafOfPath` | src/config.cpp:356 | the leaf of `name:leaf` is `leaf` |
| `Assign.KeyedExists` | src/config.cpp:307-317 | true exactly when an instance of the descriptor already has the key |
| `Assign.NewInstance` | src/config.cpp:323-329 | appends one non-static instance of the descriptor, filled with all of its defaults |
| `Assign.SetKeyText` | src/config.cpp:331 | writing the key text keeps the number of instances and changes no settings, variables or flags |
| `Assign.CreateKeyed` | src/config.cpp:322-331 | a `cat[key]:` line adds one instance |
| `Assign.CreateKeyedHasKey` | src/config.cpp:322-331 | the new instance carries its key, so the category now exists for that key |
| `Assign.BracketScan` | src/config.cpp:303-332 | the bracket loop only ever adds instances |
| `Assign.BracketReuses` | src/config.cpp:303-332 | a second `cat[key]:` line for the same key reuses the instance the first one made |
| `Assign.CurrentIndex` | src/config.cpp:341 | the instance the current special category points to, and none exactly when there is no current category or no instance has its id |
| `Assign.LeafIn` | src/config.cpp:341-346 | the leaf is `valueName.substr(name.length() + 1)`, found exactly when the instance name prefixes a longer `valueName` and the instance has that cell |
| `Assign.CurrentInstanceFirst` | src/config.cpp:341-346 | a name that is not a flat value and whose leaf the current special category holds resolves into that instance, before any other lookup |
| `Assign.LiveInstanceStep` | src/config.cpp:348-365 | otherwise the first instance the name starts with that is static or carries the current key becomes the current category; it resolves the name when it holds the leaf, and ends the line successfully when the leaf is missing and its category ignores missing values |
| `Assign.MaxAnonymous` | src/config.cpp:398-401 | the largest anonymous number in use: an upper bound that some instance attains, or 0 with no instances |
| `Assign.NumberAnonymous` | src/config.cpp:403-407 | the new instance gets the largest number in use plus one, its string key cell and the current key become that number's decimal text, and nothing else changes |
| `Assign.AnonymousNumbered` | src/config.cpp:396-407 | a line opening a new anonymous instance makes it the last instance, numbered one above the largest number in use, with that number as its key text and as the current key |
| `Assign.ResolveDescriptor` | src/config.cpp:368-418 | a descriptor match always resolves into an instance that exists; when nothing matches, the line fails with `config option <name> does not exist.`; no settings, variables or flags change |
| `Assign.ResolveSpecial` | src/config.cpp:336-424 | a name not in the flat map resolves into an instance or ends the line with the lookup's error; the steps are stated by `Assign.CurrentInstanceFirst`, `Assign.LiveInstanceStep`, `Assign.UnknownName` and `Assign.KeyComesFirst` |
| `Assign.Resolve` | src/config.cpp:336-424 | the flat map is consulted first; a name there always resolves to it |
| `Assign.ParseVec2Fields` | src/config.cpp:448-465 | a vec2 is accepted exactly when the text has two space-separated fields that both parse as floats |
| `Assign.Convert` | src/config.cpp:426-487 | a successful conversion writes a cell of the same type marked set by the user; a failure writes nothing, except a custom type, whose callback already ran |
| `Assign.Mark` | src/config.cpp:487 | only a successful write marks the cell set by the user |
| `Assign.Store` | src/config.cpp:426-489 | a resolved name is always found, and storing changes no settings, variables or flags |
| `Assign.ConfigSetValue` | src/config.cpp:283-490 | an unknown name is an error; settings, variables and directive flags never change |
| `Assign.AssignFlat` | src/config.cpp:283-490 | a known flat value fails exactly when its text does not convert; otherwise it reads back the converted value, is set by the user, and nothing else changes |
| `Assign.UnknownName` | src/config.cpp:336-423 | a name found nowhere leaves the state as it was and is "does not exist", so the handlers are asked next |
| `Assign.KeyComesFirst` | src/config.cpp:368-412 | touching a non-key leaf first in a new keyed instance gives the key-must-come-first error, and the instance is still created |
| `Handlers.HandlerName` | src/config.cpp:808 | exactly one leading `:` is dropped; a name without one is kept as it is |
| `Handlers.Walk` | src/config.cpp:811-823 | the scoped walk consumes `category:` segments of the name, one open category each, and returns the rest of the name with the number matched |
| `Handlers.WalkOverPrefix` | src/config.cpp:811-823 | a name that spells out the open categories, each followed by `:`, is walked past all of them to exactly the rest |
| `Handlers.WalkSpellsPrefix` | src/config.cpp:811-823 | conversely, a walk that matched every category leaves a rest that the category path completes to the whole name |
| `Handlers.ScopedAcceptsIff` | src/config.cpp:810-826 | a scoped handler accepts exactly when its name is the category path followed by the LHS |
| `Handlers.Accepts` | src/config.cpp:806-836 | a handler taking flags accepts exactly the colon-free names it prefixes; an unscoped one exactly its own name; a scoped one, under colon-free categories, exactly the category path followed by the name |
| `Handlers.LastAccepting` | src/config.cpp:801-837 | finds the last handler that accepts the line, or reports that none does |
| `Handlers.RunHandlers` | src/config.cpp:801-837 | the result is the last accepting handler's, called with the unqualified LHS; found if any handler accepted |
| `Grammar.CommentLine` | src/config.cpp:640-645 | a comment line changes only the directive flags, and its only error is `stray endif` |
| `Grammar.Brace` | src/config.cpp:842-873 | a category line changes only the stack and, when the stack becomes empty, the special key and category |
| `Grammar.ParseLine` | src/config.cpp:633-876 | a line never changes settings or the error text, keeps the variable table well formed, and is skipped inside a failed `if` |
| `Grammar.Statement` | src/config.cpp:670-683 | the same frame and table invariant for the content of an ordinary line |
| `Grammar.AssignLine` | src/config.cpp:683-770 | the same frame and table invariant for an assignment line |
| `Grammar.SetOrHandle` | src/config.cpp:793-841 | storing a value or running the handlers changes no settings, variables or flags |
| `Grammar.SetOrHandleRoutes` | src/config.cpp:793-841 | when only verifying, no value is set and the last accepting handler decides; a matched value decides without any handler; an unmatched one goes to the last accepting handler, or keeps configSetValueSafe's error when none accepts |
| `Grammar.Define` | src/config.cpp:493-501 | after a definition the name reads back the new value, every other name keeps its value, and the table stays unique and sorted longest first |
| `Grammar.ParseVariable` | src/config.cpp:492-515 | a definition always succeeds; at load time only the table changes; at run time the category stack ends empty |
| `Grammar.Replay` | src/config.cpp:503-511 | replaying recorded lines keeps the settings and the table invariant |
| `Grammar.UpdateBinding` | src/config.cpp:495-496 | redefining updates in place: the name reads the new value and others keep theirs |
| `Grammar.InsertBinding` | src/config.cpp:497-500 | a new name is inserted and sorted, and the table stays unique and ordered by non-increasing name length |
| `Grammar.CommentOnly` | src/config.cpp:640-645 | a comment line only runs its directive, even inside a failed `if` |
| `Grammar.BlankLine` | src/config.cpp:672-673 | a line that is blank after comment stripping changes nothing |
| `Grammar.StrayClose` | src/config.cpp:851-854 | `}` with no open category is "Stray category close" and changes nothing |
| `Grammar.InvalidLine` | src/config.cpp:677-681 | a line with no `=` that neither opens a category nor is `}` is "Invalid config line" and changes nothing |
| `Grammar.OpenCategory` | src/config.cpp:862-872 | `name {` pushes the trimmed name |
| `Grammar.CloseCategory` | src/config.cpp:856-861 | `}` pops, and popping the last category clears the special key and category |
| `Grammar.OpenThenClose` | src/config.cpp:851-872 | opening then closing a category restores the stack |
| `Grammar.EmptyLhs` | src/config.cpp:689-692 | a blank name is "Empty lhs." and changes nothing |
| `Grammar.PlainAssignment` | src/config.cpp:683-841 | a line without variables, expressions or escapes reaches the assignment with its two sides as written |
| `Grammar.SetLine` | src/config.cpp:633-841 | end to end: `name = value` for a known flat value stores the converted text, or fails and changes nothing |
| `Grammar.DefineLine` | src/config.cpp:694-770 | end to end: `$name = value` defines the variable and keeps every other binding |
| `Driver.Append` | src/config.cpp:930-932 | a message is added after a newline, or stands alone as the first |
| `Driver.Report` | src/config.cpp:941-946 | a failed line is added exactly when it is the first error or all errors are wanted (and, in a file, noerror is off) |
| `Driver.Finish` | src/config.cpp:949-958 | an open category at the end is reported under the same first-error rule, and the stack is always emptied |
| `Driver.Advance` | src/config.cpp:939-946 | after the first error, without throwAllErrors, lines add nothing to the error text |
| `Driver.ReadLines` | src/config.cpp:923-958 | the stack ends empty; the result carries the error text; after the first error only the backslash message can still be added |
| `Driver.ErrorsAccumulate` | src/config.cpp:923-958 | messages are only appended: the error text a read starts with stays at the front |
| `Driver.ParseRawStream` | src/config.cpp:915-961 | the stream read ends with an empty stack and reports its error text |
| `Driver.ParseFile` | src/config.cpp:963-1015 | a file that fails to open is "File failed to open"; otherwise the same as a stream read |
| `Driver.Reset` | src/config.cpp:882-889 | the state parse starts from: `Registry.ClearState`, every value reset to its default and not set by the user; exactly the static instances are left, in order, each with every descriptor default reset and nothing else changed |
| `Driver.Parse` | src/config.cpp:878-913 | refused before commence; the stack always ends empty; a missing file is an error unless missing configurations are allowed |
| `Driver.ParseDynamic` | src/config.cpp:1017-1019 | a run-time line keeps the settings and the table invariant |
| `Driver.ParseDynamicSet` | src/config.cpp:1021-1023 | `command=value` at run time, the same guarantees |

## Left out

- File system and streams: `std::filesystem::exists` and `canonical`, the constructor's existence check and the `ifstream`. `Driver.Parse` takes what the file system says (`FileView`) and the canonical path as parameters, and a file is its text.
- The process environment (`environ`) is a parameter of `NewConfig`. The ABI copy of the options structs (`seekABIStructSize`, `memcpy`) is left out: options arrive as values.
- Floating point: `std::stof`, the alpha rounding of `rgba()`, expression arithmetic and `std::format`. These are functions of the `Host` record and are never interpreted. The messages of a failed `stof` use the text "stof" for `e.what()`.
- Host callbacks (keyword handlers, custom-type set callbacks and destructors) are `Host` functions referred to by id. Destructors are never run, because the model frees nothing.
- `trim`, `isNumber`, `replaceInString` and `CConstVarList` from hyprutils, and `SVariable::truthy`, are not part of this model's source. `Text` and `Numbers` define the readings used: whitespace is space, tab, CR, LF, VT and FF; `CConstVarList` drops empty tokens and gives "" past the end; `truthy` is a `Host` function.
- Memory plumbing: `calloc`, `free`, `strncpy`. Storage identity is a counter (`ConfigValue.buffer`), pointers to descriptors and instances are ids, and `retrieveKeysForCat` returns a sequence.
- `getDataStaticPtr` and `dataPtr`: the model has no addresses. That a cell's storage survives resets is stated by `Values.ResetKeepsStorage`.
- The `CConfigValue` copy constructor (src/common.cpp:57-60) writes through a null payload and is not modelled.
- `getConfigValuePtr` is a plain map lookup on `Config.values` and has no member of its own.
- Grammar.ParseVariable: the run-time replay of lines that used a redefined variable is bounded by `fuel`. With no fuel left, a redefinition replays nothing. Mutually referencing variables can make the source recurse without end.
- Grammar.ParseVariable: the source replays through an iterator into the variable table. A replayed line that defines a new variable re-sorts the table and can invalidate that iterator. The model replays the list of lines taken before the replay.
- Host misuse that throws or terminates in the source is not modelled as a crash:
  - a key cell that is not a string (the `any_cast` at src/config.cpp:312, 353, 1043 and 1071 reads as the empty string in `Registry.KeyText`);
  - `setFrom` of a key text into a non-string key cell (`Assign.SetKeyText` keeps the cell).
- Assign.SetKeyText: keeps a non-string key cell as it was; the source throws `bad_any_cast` at src/config.cpp:331.
- `std::ranges::sort` is not stable. The model inserts each entry after all entries whose name is at least as long. So the order among equal lengths is one the source may produce, not necessarily the one it does produce.
- The "Invalid category open, garbage after {" branch (src/config.cpp:864-866) cannot be reached: a line without `=` gets there only when it ends in `{`. The model does not spell it out, and `Grammar.Brace` records why.
- `parse()` reads defaults with `values.at(k)`, which could throw. It cannot here, because a key gets its cell at `commence()` and no default is added afterwards. The model writes the cell either way.
- Flags are not reset by `parse()`: the `noerror` switch and the `if` stack carry over from a previous parse, as in the source.
- Registry.RemoveSpecialCategory: keeps the current special category, as src/config.cpp:173-176 does. When that is an instance of the removed category it is left referring to nothing (`Registry.RemoveSpecialCategoryDangles`). The source then dereferences freed memory at src/config.cpp:341 on the next assignment. The model reads such a stale id as "no current instance" (`Assign.CurrentIndex` is none), so it does not model that use after free.
- Driver.Reset: uses the corrected `Registry.ClearState` from the Findings, which also forgets the current special category and key; the source's clearState keeps both, so a current instance can outlive its freeing (`Registry.ClearStateAsWrittenDangles`).
- Coerce.ToIntOfRgbaHex: spells the bytes with lower-case digits only; `Coerce.RgbaHex` and `Coerce.RgbHex` cover any spelling of the digits.
- Signed overflow of the colour sums is undefined behaviour in C++. `Numbers.Wrap64` models it as two's-complement wrap-around.

## Findings

| source | as written | input that shows it | evidently intended | confidence | as-written member | corrected member |
|---|---|---|---|---|---|---|
| src/config.cpp:342 and 356 | after `valueName.starts_with(name)`, the leaf is `valueName.substr(name.length() + 1)` | a static special category `sc` and the line `sc = 1`: `valueName == "sc"`, and `substr(3)` on a 2-character string throws `std::out_of_range` | a name that is exactly the category has no leaf and is looked up further, ending as "does not exist" or going to the handlers | not executed; high | `Assign.LeafAsWritten`, `Assign.LeafAsWrittenThrows` | `Assign.Leaf` |
| src/config.cpp:1025-1030 | clearState frees every non-static instance but does not reset `currentSpecialCategory` | a keyed category `dev` with key `name`, the configuration `dev[a]:name = a` at top level (which sets the current special category to the new instance and never closes a category), then `parse()` again: the instance is freed, and the next line that is not a flat value reads the freed instance at line 341 | clearState forgets the current special category and key, as closing the last category does at lines 858-861 | not executed; high | `Registry.ClearStateAsWritten`, `Registry.ClearStateAsWrittenDangles` | `Registry.ClearState` |
