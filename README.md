# ModHero module loader and prerequisite graph, in Dafny

This project models three pieces of ModHero, a planner for NUS course modules:

- **`Module`** is the immutable module record: code, name, modular credits (MC), type and prerequisites. It also has a storage line, `toFormatedString`.
- **`Nusmod`** is the hand-written JSON scanner. It turns an NUSMods module response into a `Module`. The model covers:
  - `getArg`, with its key search and its three value readers (object, string, raw token);
  - the credit parser and the prerequisite parser;
  - the `getModule` assembly that runs after the HTTP fetch.
- **`PrereqGraph`** maps each prerequisite code to the codes of the modules that depend on it.

Files and modules:

- `options.dfy` (`Options`):
  - `Option` stands for Java's `null`.
  - `Outcome` stands for a Java exception escaping a call. Each cause is a `Fault`.
- `java_integer.dfy` (`JavaInteger`) models `Integer.toString` and `Integer.parseInt` over a 32-bit `int32`.
- `modules.dfy` (`Modules`) holds the `Module` datatype, its constructor and the storage line.
- `nusmod.dfy` (`Nusmod`) holds the scanner. Java's loops become methods, each proved equal to a specification function:
  - `FindValueStart` against `ValueStart`;
  - `ExtractJsonObject` against `JsonObject`;
  - `ExtractRawValue` against `RawValue`;
  - `ParseModuleCodes` against `ModuleCodes`.
- `prereq_graph.dfy` (`DependencyGraph`) holds the `PrereqGraph` class.
  - Its `graph` field is a `map<string, seq<string>>`, and `BuildGraph` updates it in place with the source's loops.
  - The loops are proved against a step-by-step function, `AddModules(SeedKeys(..))`.
  - Lemmas then relate that function to a reference definition, `Dependents`.

Exceptions become `Throws`:

- `charAt` just past the end of the text, when a key is followed by a colon and only whitespace, gives `CharAtEnd`.
- A string value with no closing quote gives `UnclosedString`.
- The last `]` standing before the first `[` gives `BracketsReversed`.
- A prerequisite entry whose first `:` precedes its first `"` gives `ColonBeforeQuote`.
- The `Module` constructor's assertion on an empty code or name gives `EmptyField`. This assumes Java assertions are enabled.

Java's `null` returns become `None`.

## Model

| member | source | states |
|---|---|---|
| Modules.NewModule | src/main/java/modhero/data/modules/Module.java:31-41 | requires a non-empty code, name and type; the module keeps every argument unchanged (credits included, with no range check), and the getters return them |
| Modules.NewModuleFromGetters | src/main/java/modhero/data/modules/Module.java:50-72 | a valid module is exactly what the constructor builds from its own getters, so no field can differ from what was passed in |
| Modules.ToFormattedString | src/main/java/modhero/data/modules/Module.java:79-91 | the storage line is the serialised code, name, MC text, type and prerequisites, in that order; the MC text is `Integer.toString` of the credits (canonical decimal, see `JavaInteger.ToDecimal`), which `Integer.parseInt` reads back as the module's credits |
| Modules.FormattedStringDeterministic | src/main/java/modhero/data/modules/Module.java:79-91 | modules with equal fields give identical storage lines |
| JavaInteger.DigitsRoundTrip | src/main/java/modhero/data/modules/Module.java:85 | the decimal digits of a natural number read back as that number |
| JavaInteger.ParseIntToDecimal | src/main/java/modhero/data/modules/Module.java:85 | `Integer.parseInt(Integer.toString(n)) == n` for every 32-bit `n` |
| JavaInteger.ToDecimal | src/main/java/modhero/data/modules/Module.java:85 | `Integer.toString`: a `-` exactly for negative numbers, then at least one digit and no leading zero unless the number is 0 |
| JavaInteger.ParseInt | src/main/java/modhero/data/Nusmod.java:166 | a parsed number comes from text that starts with a sign or digit and has only digits after it; a bare sign and empty text are rejected; the value fits in an `int` |
| JavaInteger.ParseIntOfDigits | src/main/java/modhero/data/Nusmod.java:166 | digits alone or after `+` parse to their value exactly when it is at most 2^31-1; after `-`, to the negated value exactly when it is at most 2^31 |
| JavaInteger.ParseIntLeadingZero | src/main/java/modhero/data/Nusmod.java:166 | a leading zero does not change what digits parse to (`"04"` reads as 4) |
| Nusmod.FindKeyIndex | src/main/java/modhero/data/Nusmod.java:91-93 | -1 exactly when the quoted key occurs nowhere; otherwise the first position where it occurs |
| Nusmod.ValueStart | src/main/java/modhero/data/Nusmod.java:95-100 | never beyond the text's length; after the first `:` at or after the key; only whitespace is skipped; stops at a non-whitespace character or the end; with no colon the scan starts at index 0 |
| Nusmod.FindValueStart | src/main/java/modhero/data/Nusmod.java:95-100 | the whitespace loop returns exactly `ValueStart` |
| Nusmod.JsonObject | src/main/java/modhero/data/Nusmod.java:102-113 | null exactly when the brace count from the start never closes; otherwise the text up to the first `}` where the count returns to zero; the result ends in `}` and has as many `{` as `}` |
| Nusmod.ExtractJsonObject | src/main/java/modhero/data/Nusmod.java:102-113 | the brace-counting loop returns exactly `JsonObject` |
| Nusmod.JsonString | src/main/java/modhero/data/Nusmod.java:115-119 | the characters after the opening quote up to the next `"`, containing no `"`; throws `UnclosedString` exactly when no `"` follows |
| Nusmod.RawValue | src/main/java/modhero/data/Nusmod.java:121-130 | the longest (possibly empty) run of letters, digits, `.` and `-` from the start index |
| Nusmod.ExtractRawValue | src/main/java/modhero/data/Nusmod.java:121-130 | the end-index loop returns exactly `RawValue` |
| Nusmod.GetArg | src/main/java/modhero/data/Nusmod.java:49-59 | null when the quoted key is absent; throws `CharAtEnd` exactly when the key is found and the value would start at the end of the text; throws nothing else but `UnclosedString`; a value found is a balanced `{...}` object or text with no `"` |
| Nusmod.GetArgAt | src/main/java/modhero/data/Nusmod.java:54-58 | dispatch on the value's first character: `{` reads an object (null when it never closes), `"` reads a string, anything else reads a raw token |
| Nusmod.JsonObjectOfBalanced | src/main/java/modhero/data/Nusmod.java:102-113 | an object whose braces first close at its last character reads back as itself |
| Nusmod.GetArgReadsObject | src/main/java/modhero/data/Nusmod.java:49-59 | for the key's first occurrence followed by `:`, whitespace and such an object, the result is that object |
| Nusmod.GetArgReadsString | src/main/java/modhero/data/Nusmod.java:49-59 | for the key's first occurrence followed by `:`, whitespace and a quoted text, the result is that text |
| Nusmod.GetArgReadsToken | src/main/java/modhero/data/Nusmod.java:49-59 | for the key's first occurrence followed by `:`, whitespace and a maximal unquoted token, the result is that token |
| Nusmod.ParseModuleCredit | src/main/java/modhero/data/Nusmod.java:164-171 | -1 or a value in 1..20; not -1 exactly when `parseInt` succeeds with a value in 1..20, and then it is that value |
| Nusmod.ParseModuleCreditOfDecimal | src/main/java/modhero/data/Nusmod.java:164-171 | the decimal text of `n` gives `n` when 1 <= n <= 20, and -1 otherwise |
| Nusmod.ExtractArrayContent | src/main/java/modhero/data/Nusmod.java:181-186 | null exactly when `[` or `]` is missing; throws exactly when every `]` precedes every `[`; otherwise the text strictly between the first `[` and the last `]` |
| Nusmod.SplitEntries | src/main/java/modhero/data/Nusmod.java:188-190 | `split(",")`: comma-free pieces; a text without a comma is one entry; otherwise the pieces between commas, minus trailing empty ones |
| Nusmod.JoinSplitAtCommas | src/main/java/modhero/data/Nusmod.java:188-190 | joining the pieces with commas gives back the text |
| Nusmod.SplitJoinWithCommas | src/main/java/modhero/data/Nusmod.java:188-190 | splitting comma-free pieces joined with commas gives back the pieces |
| Nusmod.ExtractModuleCode | src/main/java/modhero/data/Nusmod.java:201-208 | null exactly when `"` or `:` is missing; throws exactly when the first `:` precedes the first `"`; otherwise the text between the first `"` and the first `:`, which holds no `:` |
| Nusmod.ModuleCodes | src/main/java/modhero/data/Nusmod.java:192-199 | succeeds exactly when every entry's extraction succeeds; never more codes than entries; no code holds a `:` |
| Nusmod.ModuleCodesOne | src/main/java/modhero/data/Nusmod.java:192-199 | one entry gives its extracted code, nothing when extraction gives null, or its exception |
| Nusmod.ModuleCodesDropsEntry | src/main/java/modhero/data/Nusmod.java:196 | an entry lacking a `"` or a `:` is dropped and the codes around it are unchanged |
| Nusmod.ModuleCodesKeepsEntry | src/main/java/modhero/data/Nusmod.java:195-196 | an entry with a code contributes exactly that code, in its place among the others |
| Nusmod.NestedTreeEntry | src/main/java/modhero/data/Nusmod.java:201-208 | the entry `{"or":["A:D"` of a nested prerequisite tree yields `or"`, the text between its first `"` and first `:` |
| Nusmod.ModuleCodesAppend | src/main/java/modhero/data/Nusmod.java:192-199 | codes keep entry order: the codes of two runs of entries are the first run's codes followed by the second's |
| Nusmod.ModuleCodesTrailingEmpty | src/main/java/modhero/data/Nusmod.java:192-208 | empty entries at the end add no code |
| Nusmod.ParseModuleCodes | src/main/java/modhero/data/Nusmod.java:192-199 | the loop that appends each entry's code returns exactly `ModuleCodes` |
| Nusmod.ParsePrereq | src/main/java/modhero/data/Nusmod.java:173-179 | no array gives an empty list; an empty array content gives an empty list; reversed brackets throw; never more codes than entries; no code holds a `:` |
| Nusmod.EntryCode | src/main/java/modhero/data/Nusmod.java:201-208 | an entry `"CODE:GRADE"` yields `CODE` |
| Nusmod.ParsePrereqReadsEntries | src/main/java/modhero/data/Nusmod.java:173-208 | an array of `"CODE:GRADE"` entries between the text's first `[` and last `]` yields its codes in order |
| Nusmod.ParsePrereqOfEntries | src/main/java/modhero/data/Nusmod.java:173-208 | any array of comma-free entries between the text's first `[` and last `]`, empty entries and a trailing comma included, gives exactly `ModuleCodes` of its entries: each entry's code in order, entries lacking `"` or `:` (empty ones too) dropped, an entry's `ColonBeforeQuote` thrown |
| Nusmod.ParsePrereqEmptyArray | src/main/java/modhero/data/Nusmod.java:173-208 | `parsePrereq("[]")` is the empty list: the one empty entry `split` leaves has no code |
| Nusmod.GetModule | src/main/java/modhero/data/Nusmod.java:68-87 | a built module is valid, of type `"core"`, with credits in 1..20 and one non-empty AND-group, and matches the looked-up fields; a missing field, bad credits or no prerequisite code gives null |
| Nusmod.GetModuleRejectsMissingField | src/main/java/modhero/data/Nusmod.java:142-144 | `isValidRawData` passes exactly when none of the four fields is null, and when it fails `getModule` gives null |
| Nusmod.GetModuleRejectsUnparsed | src/main/java/modhero/data/Nusmod.java:152-154 | `isValidParsedData` of the parsed credits passes exactly when the credits text is an integer in 1..20 and some code was found, and when it fails `getModule` gives null |
| Nusmod.GetModuleBuilds | src/main/java/modhero/data/Nusmod.java:68-87 | four fields found, credits in range, at least one code and a non-empty code and name build exactly that module |
| Nusmod.GetModuleThrows | src/main/java/modhero/data/Nusmod.java:67-87 | a `getArg` exception escapes, the fields taken in the order code, name, credits, prerequisites; with all four found, a `parsePrereq` exception escapes; after both checks pass, it throws `EmptyField` exactly when the code or name is empty |
| DependencyGraph.PrereqGraph.constructor | src/main/java/modhero/data/PrereqGraph.java:19-22 | keeps the module list and leaves the graph equal to `Graph(modules)` |
| DependencyGraph.PrereqGraph.BuildGraph | src/main/java/modhero/data/PrereqGraph.java:29-47 | the seeding loop and the nested edge loops leave `graph == AddModules(SeedKeys(old(graph), modules), modules)` |
| DependencyGraph.PrereqGraph.GetGraph | src/main/java/modhero/data/PrereqGraph.java:50-52 | returns the graph; its keys are the module codes plus the prerequisite codes, and each key lists its dependents |
| DependencyGraph.SeedKeysShape | src/main/java/modhero/data/PrereqGraph.java:31-33 | `putIfAbsent` adds every module code as a key and changes no existing list |
| DependencyGraph.AddCodesAt | src/main/java/modhero/data/PrereqGraph.java:42-44 | under each key the module's code is appended once per occurrence of that key in the group |
| DependencyGraph.AddGroupsAt | src/main/java/modhero/data/PrereqGraph.java:41-45 | the same for all of a module's groups, in group order |
| DependencyGraph.AddModulesKeys | src/main/java/modhero/data/PrereqGraph.java:36-46 | the edge pass adds exactly the prerequisite codes as keys |
| DependencyGraph.AddModulesAt | src/main/java/modhero/data/PrereqGraph.java:36-46 | the edge pass appends to each key exactly that key's dependents, in module order |
| DependencyGraph.GraphShape | src/main/java/modhero/data/PrereqGraph.java:29-47 | the key set is exactly the module codes plus all prerequisite codes; each key's list equals `Dependents`: in module then group order, a module's code once per occurrence, duplicates kept |
| DependencyGraph.DependentsAppend | src/main/java/modhero/data/PrereqGraph.java:36-46 | lists follow module order: the dependents of two runs of modules are the first run's followed by the second's |
| DependencyGraph.DependentsSound | src/main/java/modhero/data/PrereqGraph.java:40-44 | every code listed under `p` belongs to a module whose groups contain `p` |
| DependencyGraph.DependentsComplete | src/main/java/modhero/data/PrereqGraph.java:40-44 | every module whose groups contain `p` is listed under `p` |
| DependencyGraph.DependentsOfUnnamed | src/main/java/modhero/data/PrereqGraph.java:43 | a code that is no module's prerequisite has no dependents |
| DependencyGraph.ModuleWithoutDependents | src/main/java/modhero/data/PrereqGraph.java:32 | a module code that is no module's prerequisite is a key with an empty list |
| DependencyGraph.NoGroupsNoEdges | src/main/java/modhero/data/PrereqGraph.java:41-45 | groups naming no code leave the map unchanged |
| DependencyGraph.ModuleWithoutPrereqsAddsNothing | src/main/java/modhero/data/PrereqGraph.java:36-46 | a module with no prerequisite codes contributes no edges |
| DependencyGraph.EdgeCountAddModules | src/main/java/modhero/data/PrereqGraph.java:36-46 | the edge pass adds one edge per prerequisite code occurrence |
| DependencyGraph.GraphEdgeCount | src/main/java/modhero/data/PrereqGraph.java:41-44 | the total length of all dependent lists equals the number of prerequisite code occurrences across all modules |
| DependencyGraph.CatalogueExample | src/main/java/modhero/data/PrereqGraph.java:29-47 | for A, B needing A, and C needing A and D: the keys are A, B, C and D; A lists B then C, D lists C, and B and C list nobody |

## Left out

- **HTTP and logging.** `fetchModuleData`, `fetchModuleDataSafely` and all logging are out of scope. `Nusmod.GetModule` starts from the fetched text, so a failed fetch (which returns null) is not modelled.
- **Storage.** `Storage` only does file-system plumbing.
- **API client.** `ModuleInformationFetcher` and `NusModsModuleResponse` are a network client and a JSON data class.
- **`printGraph`.** It is console output, and `HashMap` iteration order is unspecified.
- **The serialiser.** `Serialiser` is not part of this model. It is a parameter with two encoding functions, so no format or round trip for the storage line is stated.
- **Character classes.** `Character.isWhitespace` and `Character.isLetterOrDigit` are modelled for ASCII only. Unicode letters, digits and spaces are not recognised.
- **The prerequisites type.** The source disagrees with itself here:
  - `Module` declares its prerequisites as a `PreReqTree`.
  - `PrereqGraph` and `Nusmod` treat them as a list of lists of codes.
  - This model follows the code that uses them: `seq<seq<string>>`, any one AND-group suffices.
- **Null prerequisites.** A null prerequisite list cannot be represented, and the constructor rejects one. So the `continue` for null prerequisites (PrereqGraph.java:38) has no counterpart. `DependencyGraph.ModuleWithoutPrereqsAddsNothing` states the nearest property: a module with no prerequisite codes adds no edge.
- **Aliasing.** `PrereqGraph.GetGraph` returns the map as a value. Java hands out the live `HashMap`, and a caller's later changes to it are not modelled.
- **Constructor assertions.** `Modules.NewModule` requires a non-empty code, name and type, as the constructor asserts. The assertions are taken to be enabled. With them disabled, an empty code or name would not make `Nusmod.GetModule` throw `EmptyField`.
- **Nested prerequisite trees.** The prerequisite parser is modelled as written. It reads codes from a flat array of `"CODE:GRADE"` strings. On a nested AND/OR tree it yields operator names such as `or"` (`Nusmod.NestedTreeEntry`). Its codes become a single AND-group (Nusmod.java:87), so any OR alternatives are flattened into one group.
- **`Integer.parseInt` inputs.** `JavaInteger.ParseInt` accepts ASCII digits only. The Java method also accepts other Unicode decimal digits.
