# conf-eager binding core, modelled in Dafny

conf-eager binds configuration objects to configuration sources eagerly.
A configuration object (`ConfEager`) declares typed properties
(`ConfEagerProperty`) as its fields. A source (`ConfEagerSource`) has
`bind(object)`, which does three things:

- it discovers the object's properties in field order and tells each property its field name;
- it populates them at once: each key is looked up as prefix plus property name, and the raw string is parsed with the property type's `map`;
- it records the object, so that `notifyUpdate()` can populate every bound object again after the source's data changes.

A required property with no value is collected into one missing-properties
failure, raised after the pass. A value that does not parse aborts the pass
with an illegal-value failure. Reading a property before it has a value is
a read-before-write failure.

The project has these modules:

- `Wrappers` (`wrappers.dfy`): `Option`, `Result`, and `Outcome`, which stands for "returned normally or threw".
- `Text` (`text.dfy`): the JavaScript string built-ins the core uses: `trim`, ASCII `toLowerCase`, `split` on one character, `join`, and the NaN test of `Number(s)` that the enum mapper uses to skip reverse-mapping keys.
- `Errors` (`errors.dfy`): the three failures and their messages.
- `Mappers` (`properties.dfy`): the out-of-the-box `map` functions: String, Boolean, StringArray, BooleanArray and Enum (case-sensitive and case-insensitive). They are written as functions. Executable methods with loops (`EnumMap`, `MapArray`) are proved equal to those functions.
- `Binding` (`binding.dfy`): the meaning of populate and notifyUpdate, written on values:
  - the slots each property is looked up by;
  - where the pass stops;
  - the missing list;
  - the store of cell values after the pass;
  - the run over all bound objects.
- `ConfEagerProperty` (`property.dfy`): the property as a class, with its mutable key and value.
- `ConfEager` (`conf_eager.dfy`): the configuration object. It has its fields, its optional prefix and its property filter.
- `ConfEagerSources` (`sources.dfy`): the lookups of the out-of-the-box sources, as functions.
- `ConfEagerSource` (`source.dfy`): the source as a class. `Bind`, `Populate` and `NotifyUpdate` are methods that change the properties in place. Each is proved against the `Binding` functions.

The documentation promises a missing-properties error when a required key is
absent. The code throws the result of `error(...)`, and that helper returns
nothing, so the thrown value is `undefined` (see "Findings"). The model
records this as-written behaviour in `Errors`. The populate model raises the
intended `MissingPropertiesError`.

`ConfEagerSource` calls `defaultEnvironment()` and `defaultPropertyFilter(key)`
on the object, but `ConfEager` as written declares only `_prefix()`. The
model gives each object an optional environment prefix and a filter on
field names. A `null` prefix reads as the empty one.

## Model

| member | source | states |
|---|---|---|
| ConfEagerSource.Source.Bind | src/ConfEagerSource.ts:39-54 | An object bound before is left untouched and the call passes. Otherwise each collected property gets its explicit key or its first included field name. The outcome is the populate outcome of those properties' slots. The values are the populated store. The object joins the bindings exactly when populate passed. |
| ConfEagerSource.Source.Attach | src/ConfEagerSource.ts:41-51 | The properties found are those of the fields that pass the filter, in field order. Their keys are set as discovery tells them. Outcome and values are populate's for the resulting slots. |
| ConfEagerSource.Discover | src/ConfEagerSource.ts:41-50 | Returns the collected properties. Each keeps an explicit or earlier key, or else gets the name of the first included field holding it. Values are unchanged. |
| ConfEagerSource.FirstNameNext | src/ConfEagerSource.ts:42-47 | One more field of the discovery loop extends the first-name search by that field. |
| ConfEagerSource.Source.Register | src/ConfEagerSource.ts:52 | The new binding is appended to the bindings. Nothing else changes: the slots and values of the properties stay the same. |
| ConfEagerSource.Source.Populate | src/ConfEagerSource.ts:68-87 | The outcome is `PopulateOutcome` of the slots before the call: the first parse error, else the missing-properties failure, else success. The new values are `Populated` of the old ones. The slots are unchanged. |
| ConfEagerSource.Source.Visit | src/ConfEagerSource.ts:71-81 | It looks up prefix plus key, and reports the key and the answer. The store changes by exactly one `Step`. The outcome is a failure exactly when the value found does not parse. |
| ConfEagerSource.Deliver | src/ConfEagerSource.ts:74-81 | No value leaves the cell as it was. A value found is handed to `_update`, so the cell holds the parsed value or fails with the parse error. Other cells are unchanged. |
| ConfEagerSource.Source.NotifyUpdate | src/ConfEagerSource.ts:62-66 | The bindings are unchanged. The outcome and the new values of all bound properties are those of `RunAll` over the bound objects, in binding order, starting from the old values. |
| ConfEagerSource.Source.Repopulate | src/ConfEagerSource.ts:63-64 | Populating one bound object gives that object's outcome. It changes bound cells only as that object's pass does, and leaves every object's slots as they were. |
| ConfEagerSource.Source.Get | src/ConfEagerSources.ts:31-39 | The answer, computed by asking the children in order, equals the source's `Lookup`. |
| ConfEagerSource.Source.CombinatorLookup | src/ConfEagerSources.ts:31-39 | A combinator answers with the answer of the first child that has the key. It has no answer exactly when no child has one. |
| ConfEagerSource.Source.Answers | src/ConfEagerSources.ts:32-33 | The answers of the first `n` children, one per child, in order. |
| ConfEagerSource.Source.EnvironmentVariables | src/ConfEagerSources.ts:8-13 | A new environment source holds the given environment and no bindings. |
| ConfEagerSource.Source.Combinator | src/ConfEagerSources.ts:26-29 | A new combinator holds the given children in the given order and no bindings. |
| ConfEagerSource.Source.SlotsOfAt | src/ConfEagerSource.ts:70-73 | Slot `i` is the slot of property `i`: its key is prefix plus name, and its answer is the source's answer for that key. |
| ConfEagerSource.Source.SlotsFailIllegal | src/ConfEagerSource.ts:80-86 | With properties of the out-of-the-box types, whose `map` is their type's, every populate failure is an illegal-value failure or a missing-properties failure. |
| ConfEagerSource.Source.JobsAt | src/ConfEagerSource.ts:63-64 | The pass for binding `k` runs over binding `k`'s properties and their slots. |
| ConfEagerSource.AllPropsContains | src/ConfEagerSource.ts:63 | Every property of every binding is among the cells notifyUpdate may write. |
| ConfEagerSource.ValuesOfLift | src/ConfEagerSource.ts:63-64 | Populating one object's properties changes the store of all bound cells exactly as that object's pass does. |
| ConfEagerProperty.Property.constructor | src/ConfEagerProperty.ts:24-36 | With a default the property is optional and holds the default. Without one it is required and empty. The key is the explicit name, if one is given. |
| ConfEagerProperty.Property.Name | src/ConfEagerProperty.ts:62-64 | The name populate composes the lookup key from is the property's key. With no key it is the text "undefined". |
| ConfEagerProperty.Property.Get | src/ConfEagerProperty.ts:43-48 | Succeeds exactly when a value is held, and returns it. Otherwise it fails with read-before-write naming the property. |
| ConfEagerProperty.Property.Update | src/ConfEagerProperty.ts:52-54 | Passes exactly when the raw value parses, and then holds the parsed value. Otherwise it fails with the parse error and keeps the old value. |
| ConfEagerProperty.Property.SetFieldName | src/ConfEagerProperty.ts:56-60 | The first name wins: a key already set is never overwritten. |
| ConfEagerProperty.Property.ParseFailureIsIllegal | src/ConfEagerProperty.ts:74 | For each out-of-the-box property type, a value its `map` rejects is an illegal-value failure. |
| ConfEager.ConfObject.Prefix | src/ConfEagerSource.ts:71-72 | A `null` environment reads as the default empty prefix. Otherwise the prefix is the environment. |
| ConfEager.DefaultPrefix | src/ConfEager.ts:22-24 | The default prefix is empty. |
| ConfEager.LookupKeySplits | src/ConfEagerSource.ts:72 | The lookup key splits back into the prefix and the property name. |
| ConfEager.DefaultPrefixKey | src/ConfEager.ts:15-18 | Without a prefix a property is looked up by its own name. |
| ConfEager.LookupKeyInjective | src/ConfEagerSource.ts:72 | Under one prefix, two names give the same key exactly when they are the same name. |
| ConfEagerSources.EnvironmentValue | src/ConfEagerSources.ts:10-13 | An answer exists exactly when the variable is set and not empty, and the answer is its value. |
| ConfEagerSources.FirstPresentHit | src/ConfEagerSources.ts:32-36 | If the children before `i` are absent and child `i` is present, the answer is child `i`'s. |
| ConfEagerSources.FirstPresentAbsent | src/ConfEagerSources.ts:32-38 | No answer exactly when every child is absent. |
| ConfEagerSources.FirstPresentIsFirstHit | src/ConfEagerSources.ts:32-36 | A present answer belongs to some child, and every earlier child is absent. |
| ConfEagerSources.FirstPresentIgnoresRest | src/ConfEagerSources.ts:34-35 | Children after the first hit are never consulted. |
| ConfEagerSources.FirstPresentSwap | test/TestOutOfTheBoxSources.ts:135-142 | With two children that both have the key, the first wins, so swapping them swaps the answer. |
| ConfEagerSources.FirstPresentSkipsAbsent | src/ConfEagerSources.ts:32-38 | A child without the key is skipped. No children means no answer. |
| Binding.CollectSpec | src/ConfEagerSource.ts:42-48 | A cell is collected exactly when some field that passes the filter holds it. There are never more cells than fields. |
| Binding.CollectHas | src/ConfEagerSource.ts:43-47 | The cell of an included field is collected. |
| Binding.CollectAppend | src/ConfEagerSource.ts:42 | Collection keeps field order. |
| Binding.FirstNameSpec | src/ConfEagerSource.ts:46 | A cell is told a name exactly when an included field holds it. The name is that of the first such field. |
| Binding.Stop | src/ConfEagerSource.ts:80 | The stop is within the slots. A stop before the end is at a slot whose value does not parse. |
| Binding.StopSpec | src/ConfEagerSource.ts:70-81 | Every slot before the stop parses or has no value. |
| Binding.StopAt | src/ConfEagerSource.ts:80 | The stop is the first slot whose value does not parse. |
| Binding.MissingSpec | src/ConfEagerSource.ts:74-77 | A name is in the missing list exactly when it is the back-quoted key of a required slot without a value. The list is never longer than the slots. |
| Binding.MissingAppend | src/ConfEagerSource.ts:70-77 | The missing list keeps property order. |
| Binding.OutcomePass | src/ConfEagerSource.ts:68-87 | Populate passes exactly when every value found parses and every required property has a value. |
| Binding.OutcomeParseFailure | src/ConfEagerSource.ts:80 | The first value that does not parse aborts the pass with its error, and that error is an illegal value. |
| Binding.OutcomeMissing | src/ConfEagerSource.ts:83-86 | When every value parses, the pass fails with missing properties exactly when some required key is absent. The failure lists exactly those keys, back-quoted, in order. |
| Binding.StepWritesOne | src/ConfEagerSource.ts:74-81 | One step writes at most its own property's cell and adds no cell. |
| Binding.StoreAfter | src/ConfEagerSource.ts:70-82 | A pass over cells that are all in the store gains no cell. |
| Binding.PassedNext | src/ConfEagerSource.ts:70-82 | A slot that passes advances the pass invariant. An absent required key joins the missing list. |
| Binding.PassedToFailure | src/ConfEagerSource.ts:80 | A pass that reaches a value that does not parse ends there, with that error and the current store. |
| Binding.PassedAll | src/ConfEagerSource.ts:83-86 | A pass through every slot fails exactly when the missing list is not empty. It has written the whole populated store. |
| Binding.StoreAfterWritten | src/ConfEagerSource.ts:80 | After `n` steps, each cell with a parsing value among them holds that value. |
| Binding.StoreAfterKept | src/ConfEagerSource.ts:74-78 | A cell that no step among the first `n` writes keeps its value. |
| Binding.StoreAfterSpec | src/ConfEagerSource.ts:70-82 | The first `n` steps write exactly the cells with parsing values, leave every other cell alone and add no cell. |
| Binding.PopulatedSpec | src/ConfEagerSource.ts:70-82 | After populate, every cell before the stop whose value parses holds that value. A cell without a value, or past the stop, keeps its old value. |
| Binding.StoreAfterLocal | src/ConfEagerSource.ts:63-64 | A pass touches only its own cells. It writes them the same way whatever the other cells hold. |
| Binding.RunAllAppend | src/ConfEagerSource.ts:63-65 | notifyUpdate over two lists runs the second only when the first passes, on the store the first left. |
| Binding.RunAllPass | src/ConfEagerSource.ts:63-65 | notifyUpdate passes exactly when every bound object populates without failure. |
| Binding.RunAllFirstFailure | src/ConfEagerSource.ts:63-65 | The first object that fails ends the update with its failure. The objects after it are not populated. |
| Errors.MessageTellsKind | src/ConfEagerErrors.ts:3-27 | The kind of each failure can be recovered from its message alone. |
| Errors.IllegalValueMessageNamesValue | src/ConfEagerErrors.ts:5-7 | Two illegal-value messages of the same kind are equal only when their values are equal. |
| Errors.MissingMessageListsNames | src/ConfEagerErrors.ts:13-16 | The missing-properties message contains every listed name, after the lead words. |
| Errors.MissingThrowAsWrittenLosesList | src/ConfEagerError.ts:15-18 | The tagging helper as written returns nothing, so populate's missing throw never raises an error carrying the list. |
| Mappers.BooleanMapperSpec | src/ConfEagerProperties.ts:10-19 | After trimming and lower-casing, "true" and "1" map to true and "false" and "0" map to false. Anything else fails, naming the normalised text. |
| Mappers.BooleanRoundTrip | src/ConfEagerProperties.ts:10-19 | The text of either boolean, padded with any white space, parses back to that boolean. |
| Mappers.BooleanIgnoresCase | src/ConfEagerProperties.ts:11-18 | Examples beyond the tests: `" TRUE "` is true and `"False"` is false. As in the tests, `"illegal value"` is rejected as a boolean. |
| Mappers.FirstWhereSpec | src/ConfEagerProperties.ts:139-147 | The key search finds a member exactly when some key is accepted. The member found is that of the first accepted key. |
| Mappers.OwnLookupSpec | src/ConfEagerProperties.ts:133 | The own-key part of indexing the enum object finds a value exactly when the object has that own key. The value is that of the key's first entry. |
| Mappers.InsensitiveMatchSpec | src/ConfEagerProperties.ts:139-147 | The case-insensitive search finds exactly the first non-numeric key that lower-cases to the target. |
| Mappers.CaseSensitiveSpec | src/ConfEagerProperties.ts:132-137 | Case-sensitive matching succeeds exactly when the untrimmed input is an own key or a name inherited from `Object.prototype`. An own key wins, with the first such entry's value; otherwise the inherited function or object is the value. When it fails, the error names the raw input. |
| Mappers.CaseInsensitiveSpec | src/ConfEagerProperties.ts:139-149 | Case-insensitive matching succeeds exactly when some non-numeric key lower-cases to the trimmed, lower-cased input, with the first such key's value. Otherwise it fails naming the raw input. |
| Mappers.SensitiveMatchImpliesInsensitive | src/ConfEagerProperties.ts:131-149 | An unpadded, non-numeric input that is an own key matches in both modes. |
| Mappers.EnumMap | src/ConfEagerProperties.ts:131-150 | The enum `map` with its loop computes `EnumMapping`: a property lookup of the raw input (own keys, then inherited names) when case-sensitive, the key search otherwise. |
| Mappers.EnumInheritedExample | src/ConfEagerProperties.ts:133-135 | For `enum Foo {VALUE1}`, `"toString"` is found case-sensitively as the inherited function. The case-insensitive search, which sees only own keys, rejects it. |
| Mappers.EnumInsensitiveExample | test/TestOutOfTheBoxProperties.ts:236-239 | For `enum Foo {VALUE1}`, both "value1" and "VALUE1" map to `Foo.VALUE1` case-insensitively. |
| Mappers.EnumSensitiveExample | test/TestOutOfTheBoxProperties.ts:247-253 | Case-sensitive matching accepts "VALUE1" and rejects "value1". |
| Mappers.EnumRejectExample | test/TestOutOfTheBoxProperties.ts:222-224 | "illegal value" is rejected as an enum value. |
| Mappers.ElementsLength | src/ConfEagerProperties.ts:33-37 | There are never more array elements than comma-separated pieces. |
| Mappers.ElementsSpec | src/ConfEagerProperties.ts:33-37 | Each element is non-empty, unpadded and the trimmed form of some piece. |
| Mappers.MapPiecesSuccess | src/ConfEagerProperties.ts:33-40 | The array parses exactly when every element parses. It then holds the parsed elements in order, one per element. |
| Mappers.MapPiecesFailure | src/ConfEagerProperties.ts:38 | A failed array fails with the error of its first element that does not parse. |
| Mappers.MapPiecesSpec | src/ConfEagerProperties.ts:31-41 | All or nothing: success exactly when every element parses, with the elements' values in order. Otherwise the first failing element's error. |
| Mappers.MapPiecesFailureSticks | src/ConfEagerProperties.ts:38 | Once a prefix of the pieces fails, the whole array fails the same way. |
| Mappers.MapFailsWithIllegalValue | src/ConfEagerProperties.ts:18 | Every mapper failure is an illegal-value error of kind boolean or enum. |
| Mappers.StringIsIdentity | src/ConfEagerProperties.ts:54-56 | The String mapper returns its input unchanged. |
| Mappers.StringArraySpec | src/ConfEagerProperties.ts:87-89 | A string array always parses. It holds exactly the trimmed non-empty pieces, in order. |
| Mappers.BooleanArraySpec | src/ConfEagerProperties.ts:109-111 | A boolean array parses exactly when every element is a boolean spelling. It never has more values than pieces. |
| Mappers.MapOnePiece | src/ConfEagerProperties.ts:31-41 | An array input without a comma is the single trimmed element. |
| Mappers.MapTwoPieces | src/ConfEagerProperties.ts:31-41 | An array input with one comma is its two trimmed elements, both parsed. |
| Mappers.BooleanArrayExample | test/TestOutOfTheBoxProperties.ts:59-62 | `" true , false "` is `[true, false]`. |
| Mappers.EmptyArrayExample | test/TestOutOfTheBoxProperties.ts:66-71 | `" , "` is the empty array for every array type. |
| Mappers.BooleanArrayRejectExample | test/TestOutOfTheBoxProperties.ts:75-79 | `"illegal value"` is rejected as a boolean array. |
| Mappers.MapArray | src/ConfEagerProperties.ts:31-41 | The array `map` with its loop computes `Map`. |
| Mappers.Apply | src/ConfEagerProperty.ts:53 | The `map` a property applies computes `Map` for its type. |
| Mappers.ElementOf | src/ConfEagerProperties.ts:87-111 | The element mapper of an array type is never itself an array mapper. |
| Text.TrimStartSpec | src/ConfEagerProperties.ts:34 | `trimStart` keeps a suffix preceded only by white space. The suffix starts with something other than white space. |
| Text.TrimEndSpec | src/ConfEagerProperties.ts:34 | `trimEnd` keeps a prefix followed only by white space. The prefix ends with something other than white space. |
| Text.TrimIsSlice | src/ConfEagerProperties.ts:34 | `trim` gives a slice of its input that neither starts nor ends with white space. |
| Text.TrimIgnoresPadding | src/ConfEagerProperties.ts:11 | White space around a text does not change its trimmed form. |
| Text.TrimIdempotent | src/ConfEagerProperties.ts:34 | Trimming twice is trimming once. |
| Text.TrimUnpadded | src/ConfEagerProperties.ts:34 | Text without white space at either end is its own trimmed form. |
| Text.ToLower | src/ConfEagerProperties.ts:144 | Lower-casing keeps the length and maps each character on its own. |
| Text.ToLowerIdempotent | src/ConfEagerProperties.ts:144 | Lower-casing twice is lower-casing once. |
| Text.Split | src/ConfEagerProperties.ts:33 | `split` on one character always gives at least one piece. |
| Text.SplitPiecesLackSeparator | src/ConfEagerProperties.ts:33 | No piece of a split contains the separator. |
| Text.JoinSplit | src/ConfEagerProperties.ts:33 | Joining the pieces of a split with the separator gives back the input. |
| Text.JoinContainsParts | src/ConfEagerErrors.ts:15 | `join` keeps every part, in order, with the separator between neighbours. |
| Text.NatStringIsNumeric | src/ConfEagerProperties.ts:140 | The decimal text of a number, such as an enum's reverse key, is numeric, so the search skips it. |
| Text.IdentifierIsNotNumeric | src/ConfEagerProperties.ts:140 | A member name that starts with a letter other than `I` (as in `Infinity`) is not numeric, so the search considers it. |

## Left out

- `Number`, `NumberArray` and `numberMapper` are not modelled, because they need floating-point parsing. Only the NaN test that the enum mapper applies to keys is modelled (`Text.IsNumeric`).
- `EnumArray`, the file-based sources and the other sources beyond `EnvironmentVariables` and `Combinator` are not part of this model. A plain key-value source (`KeyValue`) stands in for the custom sources the tests define.
- `process.env` is not read: the environment is a map given to the `EnvironmentVariables` constructor.
- `Object.keys` and `instanceof` reflection, and the object's property filter and prefix hooks, are not modelled. An object is an explicit list of fields, each holding an optional property, plus an optional prefix and a filter on names.
- `ConfEagerSource.Source.Bind`: the `Map` of bound objects is a list of (object, properties) pairs in insertion order, keyed by object identity.
- `ConfEagerSource.Source.Bind`: the allocation precondition on the object's properties is a Dafny framing requirement with no counterpart in the source.
- A property's `map`, which JavaScript dispatches virtually, is a constant function fixed at construction. `Valid` says it equals its type's mapper.
- User-defined `ConfEagerProperty` subclasses with their own `map`, and the errors such a `map` may throw, are not modelled. The constructor gives every property one of the five out-of-the-box mappers, so `ConfEagerProperty.Property.ParseFailureIsIllegal` and `ConfEagerSource.Source.SlotsFailIllegal` hold only for those types.
- `util.format` is modelled only for the `%s` substitutions the three error messages use.
- `null` and `undefined` from a source are both the absent answer `None`. An empty string in the environment is also `None`.
- An omitted `caseSensitive` flag of `Enum` is `false`, as JavaScript reads `undefined` in the test.
- `ConfEagerProperty.Property.Name`: a property with no key gives the text "undefined", as `%s` prints an undefined name.
- JavaScript exceptions are modelled as `Outcome`/`Result` values, and a thrown failure stops the remaining work the same way.
- `Text.ToLower` covers only the ASCII letters; JavaScript lower-cases all of Unicode.
- Concurrency and re-entrancy (a `_get` that itself binds) are not modelled.

## Findings

| source | as written | input that shows it | evidently intended | confidence | as-written member | corrected member |
|---|---|---|---|---|---|---|
| src/ConfEagerError.ts:15-18 | `error(type, format, ...params)` builds an Error but has no `return`, so `throw error(...)` in populate (src/ConfEagerSource.ts:84) throws `undefined` | binding an object with one required property `a` to a source without key `a` | throw a typed missing-properties error whose message lists `` `a` `` | not executed | Errors.MissingThrowAsWrittenLosesList | Binding.OutcomeMissing |
