# ParamParserService in Dafny

A model of `ParamParserService` from the Java library `param-parser`, which
turns string parameters (query parameters, command-line arguments) into typed
values. The service keeps a mutable map from target class to parameter parser
and a replaceable array splitter. It offers three operations:

- `addOrReplace` registers a parser under every class it declares.
- `getParser` finds the parser for a class, falling back along the superclass
  chain.
- `parse` applies that parser. When the parser fails and the target is an
  array class, `parse` splits the input and parses each token as the
  component type.

Files:

- `Wrappers.dfy`: `Option`, where `None` stands for Java's `null`.
- `Reflection.dfy`: runtime type descriptors (`Ty`), `Super`
  (`Class.getSuperclass`, with arrays having `Object` as superclass and
  primitives and interfaces having none), the `Depth` measure that makes the
  superclass walk terminate, and the chain `Ancestors`.
- `Parsing.dfy`: the plug-in interfaces. A `ParamParser` is the list of
  classes it declares plus a total function from the text to an optional
  `Value`. A `Splitter` is a function from the text to tokens. A `Value` is
  either a scalar or an array with one optional slot per element.
- `Registry.dfy`: the service's behaviour as functions of its two fields.
  `Registered` and `RegisterAll` give the map after registrations. `Lookup`
  is `getParser`. `Parsed` is `parse`. The lemmas here state what the source
  promises about them.
- `ParamParserService.dfy`: the class. `parserMap` and `arraySplitter` are
  mutable fields. `AddOrReplace` updates the map in a loop. `GetParser`
  walks the superclass chain in a loop. `ParseWithDefault` fills a freshly
  allocated array in a loop while counting filled slots. Each method is
  proved against the functions in `Registry.dfy`. The parse methods have no
  `modifies` clause, so they cannot change `parserMap` or `arraySplitter`.

The concrete parsers and the whitespace splitter are not modelled. The
constructor takes them as parameters.

## Model

| member | source | states |
|---|---|---|
| `ParserService.ParamParserService.constructor` | src/main/java/idea/verlif/parser/ParamParserService.java:18-34 | The service starts from an empty map with the given splitter. Its map is then the result of registering the default parsers in order (`RegisterAll`). |
| `ParserService.ParamParserService.GetArraySplitter` | src/main/java/idea/verlif/parser/ParamParserService.java:36-38 | Returns the current splitter. |
| `ParserService.ParamParserService.SetArraySplitter` | src/main/java/idea/verlif/parser/ParamParserService.java:40-42 | Replaces the splitter and leaves the parser map untouched. |
| `ParserService.ParamParserService.AddOrReplace` | src/main/java/idea/verlif/parser/ParamParserService.java:50-59 | Returns true exactly when the parser declares at least one class. On false the map is unchanged. Every declared class is then bound to the parser. Every other class keeps its previous binding, or stays unbound. |
| `Registry.Registered` | src/main/java/idea/verlif/parser/ParamParserService.java:50-58 | The map after one registration binds each declared class to the parser, overwriting earlier bindings. Other keys and their bindings are kept. An empty declaration leaves the map equal to the old one. |
| `Registry.RegisterAllLastWins` | src/main/java/idea/verlif/parser/ParamParserService.java:22-33 | After a sequence of registrations, a class is bound exactly when it was bound before or some parser declares it. It is bound to the last parser in the sequence that declares it. A class no parser declares keeps its original binding. |
| `ParserService.ParamParserService.GetParser` | src/main/java/idea/verlif/parser/ParamParserService.java:68-78 | A registered class gets its own parser. `None` (null) means no class in the superclass chain is registered. Otherwise the result is the binding of the first registered class in the chain. |
| `Registry.LookupNearest` | src/main/java/idea/verlif/parser/ParamParserService.java:68-78 | The lookup result is the binding of the nearest registered ancestor in `Ancestors(t)`. It is `None` only when no ancestor is registered. |
| `Registry.LookupFallsBackToSuperclass` | src/main/java/idea/verlif/parser/ParamParserService.java:70-76 | An unregistered class with a superclass is served by whatever serves its superclass. |
| `Registry.LookupAfterRegister` | src/main/java/idea/verlif/parser/ParamParserService.java:56 | After a registration, every class the parser declares is looked up to that parser. |
| `Reflection.Super` | src/main/java/idea/verlif/parser/ParamParserService.java:75-76 | The superclass step strictly lowers `Depth`, so the walk in `getParser` ends. It is `None` (null) exactly for `Object`, primitives and interfaces. |
| `Reflection.AncestorsIsSuperclassChain` | src/main/java/idea/verlif/parser/ParamParserService.java:70-76 | `Ancestors(t)` starts at `t`. Each entry's superclass is the next entry. The last entry has no superclass. So it is the sequence of classes the do-while loop visits. |
| `ParserService.ParamParserService.Parse` | src/main/java/idea/verlif/parser/ParamParserService.java:88-90 | The two-argument `parse` is `parse` with a null default. |
| `ParserService.ParamParserService.ParseWithDefault` | src/main/java/idea/verlif/parser/ParamParserService.java:101-127 | The result equals `Parsed` of the current map, splitter, class, input and default. The loop keeps slot `k` equal to token `k` parsed as the component type, and `count` equal to the number of filled slots. |
| `Registry.CountPresent` | src/main/java/idea/verlif/parser/ParamParserService.java:114-122 | The counter never exceeds the number of slots. It is positive exactly when some slot holds a value, which is the `count > 0` test. |
| `Registry.ParseDirectHit` | src/main/java/idea/verlif/parser/ParamParserService.java:102-107 | When the parser found for the class yields a value, `parse` returns exactly that value, whatever the default and the splitter. |
| `Registry.ParseArray` | src/main/java/idea/verlif/parser/ParamParserService.java:110-124 | Take an array class, non-empty input, and no value from a direct parser. If some token parses as the component type, the result is an array of that component type. It has one slot per token, and slot `i` is token `i` parsed with a null default. If no token parses, the result is the default. |
| `Registry.ParseFallsBackToDefault` | src/main/java/idea/verlif/parser/ParamParserService.java:109-126 | A non-array class, or empty input, with no parser value gives the default. |
| `Registry.ParseDefaultOnlyOnFailure` | src/main/java/idea/verlif/parser/ParamParserService.java:97-126 | The result with a default equals the result with a null default, with null replaced by the default. The default never influences element parsing. |
| `Registry.ParseScalarIgnoresSplitter` | src/main/java/idea/verlif/parser/ParamParserService.java:110-111 | Replacing the splitter does not change the result for a non-array class. |
| `Registry.ParseAfterOverride` | src/main/java/idea/verlif/parser/ParamParserService.java:56-107 | After a parser is registered for a class, a value that parser yields is the result of parsing that class, whatever was registered before. |

## Left out

- The concrete parsers (`ByteParser`, `IntegerParser`, `DateParser`, `BigDecimalParser` and the rest) and `SpaceArraySplitter` are not part of this model. They are abstract: the constructor takes the default parsers and the default splitter as parameters, and a parser is any total function from text to an optional value. So the model says nothing about which literal gives which number or date. In particular, `parse(T, "")` returns the default only when the parser found for `T` yields null on empty input (`Registry.ParseFallsBackToDefault`); a parser that accepts the empty string decides the result.
- The exact list of twelve default registrations is not fixed. The constructor is proved for any sequence of defaults.
- Primitive component types: for an array of a primitive type such as `int[]`, `Array.set` with a null element throws `IllegalArgumentException` at runtime. The model treats every slot as optional, as for object arrays. So a partly parsed `int[]` counts as a success here, and an `int[]` whose tokens all fail gives the default here. In both cases the Java code throws at the first failed token instead.
- ParserService.ParamParserService.ParseWithDefault: `Array.set` also throws `IllegalArgumentException` when an element value is not assignable to the component type. This happens, for example, when the component class `Sub` has no parser and the parser of its superclass `Base` serves it through the superclass fallback. The model has untyped values, so it still builds the array in that case.
- Array identity: the array `parse` builds is returned as an immutable value (`ArrayOf`) holding the slot contents. Aliasing of that array is not modelled.
- Unchecked generic casts (`(ParamParser<T>)`, `(T) array`) and the `ClassCastException`s they could cause at call sites are not modelled. Values are untyped.
- Null arguments are not modelled, because Dafny strings, parsers and type descriptors are never null:
  - A null `param` reaches the parser found for a class that is not an array, which may return a value or null, and then `parse` returns that value or the default. A `NullPointerException` at `param.isEmpty()` happens only for an array class when no parser yields a value.
  - `addOrReplace(null)`, and a parser whose `match()` returns null, throw a `NullPointerException` at `parser.match()` or `cls.length`.
  - A null entry in `match()` binds the null key of the map.
  - `getParser(null)` throws a `NullPointerException` at `cl.getSuperclass()` unless the null key is bound.
- Concurrent access to the unsynchronized map is not modelled. The model is single-threaded.
- Class descriptors are a datatype. A class carries its superclass chain, so the ancestor walk always ends; Java's class loader guarantees the same.
