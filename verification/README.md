# capnp-wrapper-gen, modelled in Dafny

`capnp-wrapper-gen` reads a Cap'n Proto schema and prints C++ wrapper
classes for it. Every top-level struct `S` gets a `Reader` and a `Builder`
class that privately inherit the Cap'n Proto classes in the
`NKikimrCapnProto_` namespace. They expose capitalised accessors: `GetX`,
`SetX`, `HasX` and `MutableX`. Every top-level enum becomes an
`enum class` without its first enumerant, which is the `NOT_SET` sentinel.
The whole program is `main.py`. This project models its two halves:

* the `Parser` turns the schema into *nodes*, an insertion-ordered map from
  a type name to either a field map (field key → type string) or a list of
  enumerant names;
* the `Generator` classifies every field type as basic, struct or enum and
  writes the accessor lines family by family and group by group. It then
  assembles the struct and enum blocks in node order.

Modules, one per concern:

| file | module | models |
|---|---|---|
| `results.dfy` | `Results` | `Option` and `Result` (the `KeyError`/`IndexError` paths) |
| `text.dfy` | `Text` | `cap`, `str.join`, concatenation, character counts |
| `ordered_map.dfy` | `OrderedMap` | Python dict semantics as an association list: first position kept, last value wins |
| `resolver.dfy` | `Resolver` | `Parser.get_list_type`, `parse_struct`, `parse`, id registration |
| `accessors.dfy` | `Accessors` | `CAPNP_BASIC_TYPES`, `is_enum`/`is_struct`/`is_basic_type`, `enum_names`/`struct_names`, the five accessor families as structured values |
| `lines.dfy` | `Lines` | the C++ line template of each accessor family |
| `emit.dfy` | `Emit` | `generate_reader`/`builder`/`struct`/`enum`, `generate` |
| `enum_offset.dfy` | `EnumOffset` | what the emitted `- 1` / `+ 1` enum casts compute, with C++ integer widths |

The schema itself is an input. It is a sequence of `Decl`s in declaration
order, each carrying its id, name and fields or enumerants. This replaces
`capnp.load` and the reflection chains.

## Model

| member | source | states |
|---|---|---|
| Text.Cap | main.py:25-26 | same length; first character upper-cased (ASCII); the rest unchanged |
| Text.CapIdempotent | main.py:25-26 | capitalising a capitalised name changes nothing |
| Text.CapKeepsNonLowerStart | main.py:25-26 | a name not starting with a lower-case letter is its own key |
| Text.CapCollision | main.py:25-26 | two names give the same key iff they differ only in the case of their first letter |
| Text.Join | main.py:115-117 | joining nothing gives ""; the length is the parts plus one separator between each pair |
| Text.JoinIsConcat | main.py:115-117 | joining a non-empty list gives the first part followed by the separator and the next part, for each further part in order |
| OrderedMap.PutGet | main.py:60 | after a store, the key reads the new value and every other key reads what it read before |
| OrderedMap.FromPairsKeys | main.py:51-62 | a map filled pair by pair has the distinct keys in first-insertion order |
| OrderedMap.FromPairsLastWins | main.py:60 | each key holds the value of its last pair |
| OrderedMap.FromPairsDistinct | main.py:51-62 | with no repeated key the map is the pair list itself |
| Resolver.RegistryOf | main.py:66-71 | no contract; the `struct_ids`/`enum_ids` indexes after registering each declaration in turn (stated by Resolver.RegistryMatchesDecls) |
| Resolver.ResolveField | main.py:53-60 | succeeds iff the type resolves and the name is non-empty; the pair is (cap(name), type); a type error is passed through unchanged |
| Resolver.CapAll | main.py:72 | succeeds iff every enumerant is non-empty; the result capitalises each enumerant in order; the only error is the empty name |
| Resolver.ParseContent | main.py:67-72 | a struct resolves iff all its fields resolve, an enum iff all its enumerants are non-empty; a struct's node is the field map `parse_struct` builds, an enum's the capitalised enumerants without the first |
| Resolver.ListElemType | main.py:45-48 | a struct element resolves through the struct ids (error if unregistered); any other element is its kind tag |
| Resolver.FieldType | main.py:53-59 | struct/enum fields resolve to the registered name, or fail on an unknown id; list fields become `List(<element>)`; other kinds keep their tag |
| Resolver.ParseStruct | main.py:50-62 | succeeds iff every field resolves and has a non-empty name; the result is the dict built from (cap(name), type) pairs; on failure, the first failing field gives the error |
| Resolver.ParseEnum | main.py:72 | succeeds iff every enumerant is non-empty; the result drops exactly the first enumerant and capitalises the rest in order |
| Resolver.Parse | main.py:64-73 | succeeds iff every declaration resolves against the ids registered up to and including itself |
| Resolver.RegistryMatchesDecls | main.py:67-71 | an id is registered iff some declaration so far has it; it maps to the name of the last one |
| Resolver.KindResolves | main.py:53-59 | a field type resolves iff every id it references is declared so far |
| Resolver.ParseSucceedsIff | main.py:53-73 | parsing succeeds iff every name is non-empty and every reference points at or before its own declaration |
| Resolver.SelfReferenceResolves | main.py:68-69 | a struct's id is registered before its fields are parsed, so a field of its own type (or a list of it) resolves to its own name |
| Resolver.ForwardReferenceFails | main.py:55-71 | a reference to a type declared only later makes the whole parse fail |
| Resolver.ParseKeepsDeclOrder | main.py:66-73 | with distinct type names, node i is declaration i's name with its resolved content |
| Resolver.StructFieldsLastWins | main.py:52-60 | the field keys are the distinct capitalised names in first-seen order; colliding names keep the last type |
| Resolver.StructFieldsInOrder | main.py:52-62 | with distinct capitalised names, entry i is (cap(name_i), type_i) |
| Resolver.EnumSentinelDropped | main.py:72 | example: enumerants x0, x1, x2 give the node [X1, X2] |
| Resolver.ListTypeStrings | main.py:45-59 | example: a list of a struct is `List(Point)`; a list of int32 is `List(int32)` |
| Accessors.BasicType | main.py:7-22 | no contract; the `CAPNP_BASIC_TYPES` table, one case per entry |
| Accessors.IsEnum | main.py:82-83 | no contract; `is_enum` (stated by Accessors.NamesMatchClassification) |
| Accessors.IsStruct | main.py:85-86 | no contract; `is_struct` (stated by Accessors.NamesMatchClassification) |
| Accessors.IsBasic | main.py:88-89 | no contract; `is_basic_type`, a key of the table |
| Accessors.NodeNames | main.py:79-80 | no contract; the comprehension behind both name lists (stated by Accessors.NamesPartition) |
| Accessors.EnumNames | main.py:79 | no contract; `enum_names` |
| Accessors.StructNames | main.py:80 | no contract; `struct_names` |
| Accessors.Methods | main.py:114-152 | no contract; a family's comprehensions concatenated in group order (stated by Accessors.MethodsByGroup and Accessors.GroupingIsStableSort) |
| Accessors.StructAndEnumExclusive | main.py:82-86 | no type string is both a struct and an enum |
| Accessors.ListTypeUnclassified | main.py:82-89 | a `List(...)` type is in no group, because no type name holds a parenthesis |
| Accessors.NamesPartition | main.py:79-80 | the two lists hold one name per node between them; with distinct keys, an enum node's name is in `enum_names` and not in `struct_names`, a struct node's the other way round |
| Accessors.NamesMatchClassification | main.py:79-86 | `enum_names` holds exactly the names `is_enum` accepts; `struct_names` exactly those `is_struct` accepts |
| Accessors.GroupingIsStableSort | main.py:119-149 | each family is sorted by its group order; within a group it keeps field order; it is a permutation of the per-field accessor list |
| Accessors.MethodsByGroup | main.py:114-152 | Get/Set list basic, struct, enum; Has lists struct, enum, basic; Mutable and using list struct fields only |
| Accessors.GetSetAligned | main.py:125-149 | the i-th Set line and the i-th Get line are for the same field, group and type |
| Accessors.GetHasPaired | main.py:119-135 | per group, Has and Get cover the same fields in the same order; both have the same length |
| Accessors.OnePerStructField | main.py:114-152 | one Mutable and one using line per struct-typed field, in field order |
| Accessors.UnclassifiedFieldIgnored | main.py:114-152 | a field in no group adds no line to any family |
| Accessors.ReferencesClassified | main.py:82-86 | in a parsed schema with distinct names, a struct reference's type is a struct to the generator and an enum reference's type is an enum |
| Lines.GetLine | main.py:128-133 | no contract; the Get templates, character for character |
| Lines.SetLine | main.py:140-147 | no contract; the Set templates, character for character |
| Lines.HasLine | main.py:120-122 | no contract; the Has templates, character for character |
| Lines.MutableLine | main.py:152 | no contract; the Mutable template |
| Lines.UsingLine | main.py:116 | no contract; the using template |
| Lines.GetOneLine | main.py:128-133 | every Get line is a single line when its names are |
| Lines.SetOneLine | main.py:140-147 | every Set line is a single line when its names are |
| Lines.HasOneLine | main.py:119-122 | every Has line is a single line when its names are |
| Lines.BuilderLinesOneLine | main.py:151-152 | Mutable and using lines are single lines when their names are |
| Emit.ReaderConstructors | main.py:91-93 | two entries; otherwise a literal template |
| Emit.BuilderConstructors | main.py:95-97 | one entry; otherwise a literal template |
| Emit.BuilderOperators | main.py:99-104 | two entries; otherwise a literal template |
| Emit.CapnpBaseReader | main.py:106-108 | no contract; literal template |
| Emit.CapnpBaseBuilder | main.py:110-112 | no contract; literal template |
| Emit.GenerateReader | main.py:154-160 | no contract; the Reader methods joined by the separator (stated by Emit.ReaderLineCount) |
| Emit.GenerateBuilder | main.py:162-169 | no contract; the Builder methods joined by the separator (stated by Emit.BuilderLineCount) |
| Emit.GenerateUsing | main.py:114-117 | no contract; the using lines joined by the separator (stated by Accessors.OnePerStructField) |
| Emit.GenerateStruct | main.py:171-188 | no contract; the struct template (its opening is stated by Emit.BlockHeader) |
| Emit.GenerateEnumAsWritten | main.py:190-198 | no contract; the enum template as written (stated by Emit.EnumFixAgrees and Emit.EmptyEnumLoneComma) |
| Emit.GenerateEnum | main.py:190-198 | no contract; the corrected enum template (stated by Emit.EnumBodyCommas and Emit.EnumBodyRoundTrip) |
| Emit.Generate | main.py:200-208 | no contract; the corrected blocks of all nodes in order (stated by Emit.GenerateIsBlocks) |
| Emit.GenerateAsWritten | main.py:200-208 | no contract; `generate` as written, with main.py's enum template |
| Emit.GenerateFixAgrees | main.py:200-208 | the corrected output equals main.py's on every schema whose enums each keep an enumerant besides the sentinel |
| Emit.EmptyEnumSchemaDiffers | main.py:190-208 | on the schema `enum E { notSet @0; }` the corrected output and main.py's differ: main.py writes the lone-comma enum block |
| Emit.RenderOneLine | main.py:114-152 | every accessor renders to one line |
| Emit.ReaderMethods | main.py:154-160 | the Reader's method list has 3 + (Get lines) + (Has lines) entries: the two constructors first, then the rendered Get lines, then the rendered Has lines, and GetCapnpBase last |
| Emit.BuilderMethods | main.py:162-169 | the Builder's method list has 4 + (Set lines) + (Mutable lines) entries: the constructor and the two operators first, then the rendered Set lines, then the rendered Mutable lines, and GetCapnpBase last |
| Emit.ReaderLineCount | main.py:154-160 | the Reader body has 3 + 2k lines for k classified fields |
| Emit.BuilderLineCount | main.py:162-169 | the Builder body has 4 + k + s lines for k classified and s struct fields |
| Emit.JoinIsEnumBody | main.py:190-198 | for a non-empty enumerant list, the joined body is one "name," line per enumerant |
| Emit.EnumFixAgrees | main.py:190-198 | the corrected enum block equals main.py's whenever there is an enumerant |
| Emit.EmptyEnumLoneComma | main.py:190-198 | with no enumerant, main.py's body is the line `    ,` |
| Emit.EnumBodyCommas | main.py:190-198 | the corrected body has exactly one comma per enumerant |
| Emit.EnumBodyRoundTrip | main.py:190-198 | reading the corrected enum body back gives the enumerants |
| Emit.GeneratorKnowsStructs | main.py:200-206 | with distinct node names, every struct node is a struct to the generator and `self.nodes[name]` is its own field map |
| Emit.GenerateIsBlocks | main.py:200-208 | the output is the node blocks laid end to end in node order |
| Emit.GenerateAppend | main.py:200-208 | generating two node lists one after the other gives the two outputs concatenated |
| Emit.BlockHeader | main.py:171-198 | an enum node's block opens with `enum class N {`; a struct node's with `struct N {` |
| EnumOffset.ReadSet | main.py:132 | a stored ordinal other than NOT_SET reads as one less |
| EnumOffset.ReadUnset | main.py:132 | NOT_SET reads as -1 (SIZE_MAX truncated to int) |
| EnumOffset.WriteThenRead | main.py:132-146 | writing a wrapper enumerant then reading it gives it back, and it is present |
| EnumOffset.ReadThenWrite | main.py:132-146 | reading a set ordinal then writing it restores the stored ordinal |
| EnumOffset.WriteUnset | main.py:146 | over -1 .. 0xFFFE, a written value is present exactly when it is not -1 |
| EnumOffset.OrdinalsLineUp | main.py:132-146 | wrapper enumerant k is stored as schema ordinal k + 1, which bears its name, and reads back as k |

## Left out

- Loading the schema (`capnp.load`, main.py:65) and the reflection chains (`get_struct_id`, `get_enum_id` and the `proto.slot.type` chains, main.py:37-59) are replaced by the `Decl` input. Each field carries its resolved kind and referenced id.
- Field kinds are taken as given: a `Primitive` tag is assumed never to be `struct`, `enum` or `list`, which the input carries as `StructRef`, `EnumRef` and `ListOf`. Nothing checks this.
- Struct members without a slot (groups, unions) are left out. Field kinds other than struct, enum and list are kept as their tag string (`Primitive`).
- Only top-level structs and enums are modelled, as in `schema.__dict__`. Interfaces, constants and annotations are skipped by the `isinstance` tests, so they never appear in the input.
- `main`, `sys.argv`, `SPEC_FILE` and `print` (main.py:6,211-217) are I/O. The commented-out file writing (main.py:219-229) is dead code.
- `low` (main.py:28-29) is never called.
- Text.Cap: upper-cases only ASCII `a`..`z`, where Python's `str.upper` handles all of Unicode. Cap'n Proto identifiers are ASCII.
- Text.Cap: an empty name raises `IndexError` in the source. Here it is the `EmptyName` error of `Resolver`, so resolution fails.
- Emit.GenerateUsing reads the field map passed to `generate_struct`, while the other families read `self.nodes[name]`, as the source does. Emit.GeneratorKnowsStructs shows the two are the same map inside `generate`.
- Emit.Generate: requires distinct node names, which a Python dict guarantees. It iterates the generator's own nodes; in `main` these are the same object as the argument.
- Emit.Generate: uses the corrected enum block, so it is not main.py's `generate` on a schema with an enum whose only enumerant is the sentinel. There main.py writes the body line `    ,` and Emit.Generate writes an empty body (see "## Findings"). Emit.GenerateAsWritten is main.py's `generate` as written. Emit.GenerateFixAgrees shows the two are equal whenever every enum keeps an enumerant, and Emit.EmptyEnumSchemaDiffers shows where they part.
- Nothing models whether the emitted C++ compiles. Examples: `getX() != 0` on a text field, or `NOT_SET` existing in an enum.
- EnumOffset: assumes a 64-bit `size_t`, the default `int` underlying type of the wrapper enum, and a 16-bit Cap'n Proto enum. Converting an out-of-range value to `int` was implementation-defined before C++20; the model uses the two's-complement result C++20 prescribes.
- Floating-point types appear only as type names. No arithmetic on them is modelled.

## Findings

| source | as written | input that shows it | evidently intended | confidence | as-written member | corrected member |
|---|---|---|---|---|---|---|
| main.py:190-198 | the enumerants are joined, then one more comma is written unconditionally | an enum whose only enumerant is the sentinel, e.g. `enum Status { notSet @0; }`: the node has no enumerants and the body is the line `    ,` | an empty `enum class` body; otherwise one `name,` line per enumerant | not executed | Emit.EmptyEnumLoneComma | Emit.EnumBodyCommas |

`Emit.Generate` uses the corrected `Emit.GenerateEnum`. `Emit.EnumFixAgrees`
shows it writes the same text as main.py for every enum with at least one
enumerant besides the sentinel. `Emit.GenerateAsWritten` models the whole
output as written. `Emit.GenerateFixAgrees` lifts the agreement to whole
schemas, and `Emit.EmptyEnumSchemaDiffers` exhibits the one-enum schema on
which the two differ.
