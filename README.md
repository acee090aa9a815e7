# qrates, modelled in Dafny

qrates collects facts about compiled Rust crates into an append-only fact
database and runs analyses over those facts to study how unsafe code is used.
This project models the core of that system and proves properties of the
model. The core has four parts.

**The fact database** (`database/`, the runtime code that `database-dsl`
generates):

- Interning tables map each distinct value to a dense key. Relations are
  append-only vectors of facts. Both are classes whose methods update their
  fields in place (`data_structures.dfy`).
- The raw `.rc` file format holds three little-endian `u64` header words
  followed by the elements' bytes. The model proves that a save followed by a
  load gives back the same facts, and that a different schema hash fails to
  load (`storage.dfy`).
- The generated code is modelled for one small fixed schema:
  - `strings`, with `crate_names` chained on top of it;
  - the tuple table `builds`;
  - incremental span ids with one reserved root constant, and type ids with
    none;
  - the relations `spans`, `build_crate_types`, `types` and the keyed
    `type_defs`.
- For that schema the model covers the generated fresh-id counters, id
  `shift` and enum rules, the `register_*` functions, `TableMerger` and the
  caching `Loader`. Merging is stated as a function of both sides
  (`Merge.MergeSpec`). The merge laws prove that self's keys and facts are
  kept, that the other side's ids are shifted and its keys remapped, and that
  integrity, dense ids and the keyed index survive a merge. The expected
  sizes and ids from the database's tests are derived from the model
  (`db_examples.dfy`).
- Also modelled: the query macro's front end (`convert_to_named_arg`, the
  assembly of a program's inputs) and the generator's helpers.

**The analysis queries** (`manager/src/queries/*`, `compilation_utils.rs`):

- Relations are sequences of rows. Each Datalog rule block becomes its least
  fixpoint, computed by iteration over a finite universe (`closures.dfy`).
- Covered: build and item selection, unsafe-block counters and sizes,
  function sizes, resolved calls, unsafe reasons, build files, unsafe types
  and safe wrappers, unsafe-block groups and calls, traits, types and
  non-tree types.
- Also covered: the compile-log classifier that counts failure reasons.

**The rustql pipeline:**

- the per-crate summaries and their file names;
- the linked `Database` with its type interning, lookups and Datalog export;
- the linker, which numbers crates, modules, functions and structs globally,
  resolves calls and interns types;
- the query compiler: relation resolution, rule grouping, join trees and
  the layout of join and antijoin facts;
- the extractor's command line.

**Small utilities:**

- the corpus extractor's command-line rewriting;
- module path resolution in the early project extractor;
- syn-grep's expression and unsafe-block counter;
- the report scripts' whitelists and build counter, with Python's
  `str.split` and `str.endswith` written out (`py_strings.dfy`).

Every method that changes state is proved against a specification function
on values. The lemmas listed below state what the source promises about
those functions.

## Model

| member | source | states |
|---|---|---|
| DataStructures.Relation.Default | database/src/data_structures.rs:16-20 | a new relation holds no facts |
| DataStructures.Relation.FromVec | database/src/data_structures.rs:43-47 | a relation built from a vector holds exactly that vector's facts, in order |
| DataStructures.Relation.Insert | database/src/data_structures.rs:23-25 | inserting appends the fact at the end: the facts are the old facts followed by the new one, one more than before |
| DataStructures.RelationRoundTrip | database/src/data_structures.rs:37-47 | converting a vector into a relation and back gives the same vector |
| DataStructures.InterningTable.Default | database/src/data_structures.rs:67-78 | the empty table is a valid key-value bijection with no contents |
| DataStructures.InterningTable.FromVec | database/src/data_structures.rs:80-96 | a table built from a vector keeps the vector as contents and maps each value to its last position; a duplicate-free vector gives a valid table |
| DataStructures.InverseIndexDomain | database/src/data_structures.rs:85-90 | the collected inverse map has exactly the vector's values as keys |
| DataStructures.InverseIndexLast | database/src/data_structures.rs:85-90 | the collected inverse map sends a value to its last position, since later pairs overwrite earlier ones |
| DataStructures.InverseIndexOfDistinct | database/src/data_structures.rs:85-90 | for a duplicate-free vector the inverse map sends every element to its own position |
| DataStructures.InterningTable.Intern | database/src/data_structures.rs:103-112 | interning keeps the table valid and returns a key whose value is the argument: an old value keeps its key and changes nothing, a new value is appended and gets the old length as key |
| DataStructures.InternValueNew | database/src/data_structures.rs:106-111 | interning a new value appends it, so its key is the old length and earlier keys are unchanged |
| DataStructures.InternValuePresent | database/src/data_structures.rs:104-105 | interning a value already present leaves the contents unchanged and returns its existing position |
| DataStructures.InternValueNoDuplicates | database/src/data_structures.rs:103-112 | interning never creates a duplicate value |
| DataStructures.InternAllNoDuplicates | database/src/data_structures.rs:103-112 | interning a sequence of values one by one never creates a duplicate value |
| DataStructures.InternAllExtends | database/src/data_structures.rs:103-112 | interning a sequence of values keeps every earlier value at its key, and afterwards the table holds exactly the old values plus the new ones |
| DataStructures.InterningTable.ValidHasNoDuplicates | database/src/data_structures.rs:62-64 | a valid table holds every value once |
| DataStructures.InterningTable.KeyIsPosition | database/src/data_structures.rs:146-156 | in a valid table a key is the position of the first and only occurrence of its value |
| DataStructures.InterningTable.Lookup | database/src/data_structures.rs:127-143 | a lookup finds a key exactly when the value was interned, and the value stored under that key is the argument |
| DataStructures.Lookup | database/src/data_structures.rs:141-143 | lookup on a table's contents: a key is found exactly when the value is present, and it indexes that value |
| DataStructures.EnumerateAt | database/src/data_structures.rs:116-121 | enumerating pairs each value with its position |
| DataStructures.InterningTable.IntoPairs | database/src/data_structures.rs:158-170 | the (key, value) pairs of a table are the contents, each paired with its position, in key order |
| Storage.LeBytesRoundTrip | database/src/storage.rs:108-111 | decoding the little-endian bytes of a header word gives back every number that fits in the word |
| Storage.ChunksOfFlatten | database/src/storage.rs:112-115 | the data section of a vector is size times count bytes long, and cutting it into elements of the element size gives back the vector |
| Storage.Decoded | database/src/storage.rs:121-165 | a successful load yields elements that all have the expected element size |
| Storage.UnsafeSaveVec | database/src/storage.rs:98-117 | saving writes, under the path with extension "rc", the schema hash, element size and count words followed by the elements' bytes, and changes no other file |
| Storage.ReadLoop | database/src/storage.rs:150-158 | the read loop stops after min(remaining input, buffer size) bytes and the buffer then holds exactly those input bytes |
| Storage.UnsafeLoadVec | database/src/storage.rs:121-165 | loading fails when the file is missing, the header is short, the stored hash or element size differs from the expected one, or the data section is short; otherwise it yields the count elements that follow the header |
| Storage.SaveLoadRoundTrip | database/src/storage.rs:98-165 | loading a vector saved with the same schema hash and element size gives the same elements in the same order |
| Storage.LoadOtherHashFails | database/src/storage.rs:137-138 | a file saved under one schema hash fails to load under any other hash |
| Storage.LoadChecksSizeAndLength | database/src/storage.rs:139-159 | a stored element size other than the expected one fails the load, and so does a data section shorter than size times count bytes |
| Storage.SaveRelation | database/src/storage.rs:172-174 | saving a relation writes its facts in the raw format |
| Storage.LoadRelation | database/src/storage.rs:177-182 | loading a relation succeeds exactly when the raw vector loads, and then the relation holds the loaded facts; otherwise it returns the same error |
| Storage.SaveInterningTable | database/src/storage.rs:194-196 | saving a table writes its contents in the raw format |
| Storage.LoadInterningTable | database/src/storage.rs:199-204 | loading a table succeeds exactly when the raw vector loads; its contents are the loaded values, it is valid when they have no duplicates, and failures pass the error through |
| DslUtils.DecimalRoundTrip | database-dsl/src/generator/utils.rs:19-24 | the decimal rendering of a counter in a generated identifier parses back to the counter |
| DslUtils.IdentInjective | database-dsl/src/generator/utils.rs:18-25 | two identifiers made from the same name are equal only when their counters are |
| DslUtils.NameGenerator.New | database-dsl/src/generator/utils.rs:10-12 | a new generator keeps the name and starts its counter at zero |
| DslUtils.NameGenerator.Inc | database-dsl/src/generator/utils.rs:14-16 | the counter goes up by one and the name is kept |
| DslUtils.NameGenerator.GetFreshIdent | database-dsl/src/generator/utils.rs:22-25 | the counter goes up by one and the returned identifier is that of the new counter, different from every identifier the generator gave before |
| DslUtils.TwoFreshIdents | database-dsl/src/generator/utils.rs:22-25 | two identifiers drawn one after the other from a new generator differ, and are `name_1` and `name_2` |
| DslUtils.IsNumericType | database-dsl/src/generator/utils.rs:28-42 | a type is numeric exactly when it is an unqualified single-name path u8, u16, u32, u64 or usize |
| DslUtils.IsCopyTypeOfName | database-dsl/src/generator/utils.rs:44-58 | a single-name path is copy exactly when it is bool, u32, u64 or u128 or the schema declares it as an id or an enum |
| DslUtils.IsCopyTypeOfTuple | database-dsl/src/generator/utils.rs:59-61 | a tuple is copy exactly when all its elements are |
| DslUtils.IsCopyTypeOther | database-dsl/src/generator/utils.rs:45-62 | qualified paths, multi-segment paths and other type syntax are never copy |
| Ids.FromUsize | database-dsl/src/generator/types.rs:60-64 | converting a usize to an id keeps the low bits, so the id fits its type and equals the value when the value fits |
| Ids.IntoUsize | database-dsl/src/generator/types.rs:66-80 | widening an id to usize keeps it within usize |
| Ids.FromIntoRoundTrip | database-dsl/src/generator/types.rs:60-70 | converting from usize and back is the identity on every value the id type can hold |
| Ids.Shift | database-dsl/src/generator/types.rs:73-76 | shifting succeeds exactly when the sum fits the id type, and then gives the sum; otherwise it aborts with overflow |
| Ids.AssignDiscriminants | database-dsl/src/generator/types.rs:96-108 | the variants get discriminants 0, 1, 2, ... in declaration order, and the generation is rejected when any variant already had one |
| Ids.DefaultValue | database-dsl/src/generator/types.rs:115-119 | the default value is the variant the schema names as default |
| Ids.Display | database-dsl/src/generator/types.rs:121-125 | an enum value displays as the name of its own variant, the one at its discriminant |
| Ids.DisplayIdentifiesVariant | database-dsl/src/generator/types.rs:96-125 | with distinct variant names, looking the displayed name up gives back the value's discriminant, and two values of one enum display alike exactly when they are equal |
| Ids.DefaultDisplaysAsDefault | database-dsl/src/generator/types.rs:115-125 | the default value displays as the schema's default name |
| SchemaDecl.ScanSound | database-dsl/src/generator/registration.rs:128-159 | a chain the scan finds leads from the parameter type to the target through plain-valued interning tables of the schema, each table's value type being the key of the next |
| SchemaDecl.InterningChainSound | database-dsl/src/generator/registration.rs:126-159 | every chain of a registration leads from its parameter type to its key type through plain-valued tables of the schema |
| SchemaDecl.ScanRejectsSecondTable | database-dsl/src/generator/registration.rs:137-138 | after one table keyed by the target was used, a later table with the same key type makes the scan fail |
| SchemaDecl.AmbiguousTablesRejected | database-dsl/src/generator/registration.rs:136-141 | two interning tables with the same key type, the first plain-valued, make the registration of that key type fail |
| SchemaDecl.NonKeyIsParameter | database-dsl/src/generator/registration.rs:154-158 | a type that keys no interning table is its own parameter type, with no tables to intern through |
| SchemaDecl.FixedSchemaChains | database-dsl/src/generator/registration.rs:58-75 | in the modelled schema a crate name interns through strings then crate_names, an interned string through strings, and builds and spans are taken as they are |
| IdCounters.Counters.Default | database-dsl/src/generator/counters.rs:47-50 | each counter starts at its number of constants |
| IdCounters.Counters.GetFreshSpan | database-dsl/src/generator/counters.rs:22-26 | returns the current span counter and increments it; the type counter is unchanged |
| IdCounters.Counters.GetFreshType | database-dsl/src/generator/counters.rs:22-26 | returns the current type counter and increments it; the span counter is unchanged |
| IdCounters.Counters.GetRootParentSpan | database-dsl/src/generator/counters.rs:33-40 | returns the root-parent constant, which lies below the counter's start, and changes no counter |
| IdCounters.FreshTypes | database-dsl/src/generator/counters.rs:22-26 | n fresh ids are the counter's old value, old value + 1, ... in increasing order, and the counter ends n higher |
| Database.Tables.Default | database-dsl/src/generator/mod.rs:41-49 | new tables are empty and valid, with the counters at their defaults |
| Database.Tables.GetFreshSpan | database-dsl/src/generator/counters.rs:28-32 | the tables' fresh-span function returns the span counter and increments it, leaving the type counter alone |
| Database.Tables.GetFreshType | database-dsl/src/generator/counters.rs:28-32 | the tables' fresh-type function returns the type counter and increments it, leaving the span counter alone |
| Database.Tables.GetRootParentSpan | database-dsl/src/generator/counters.rs:41-45 | the tables' constant getter returns the root parent span |
| Database.Tables.RegisterStrings | database-dsl/src/generator/registration.rs:58-75 | registering a string interns it and keeps the tables valid; the new state and the key are those of the value-level registration |
| Database.Tables.RegisterCrateNames | database-dsl/src/generator/registration.rs:58-75 | registering a crate name interns the string, then its key as a crate name; state and key are those of the value-level registration |
| Database.Tables.RegisterBuilds | database-dsl/src/generator/registration.rs:24-56 | registering a build interns the crate name through its chain, copies the hash and interns the pair; state and key are those of the value-level registration |
| Database.Tables.RegisterSpans | database-dsl/src/generator/registration.rs:77-124 | registering a span takes a fresh span id, interns the expansion string and appends one fact, returning the id |
| Database.Tables.RegisterBuildCrateTypes | database-dsl/src/generator/registration.rs:77-124 | registering a build crate type interns the crate type and appends one fact |
| Database.Tables.RegisterTypes | database-dsl/src/generator/registration.rs:77-124 | registering a type takes a fresh type id, interns the kind and appends one fact, returning the id |
| Database.Tables.RegisterTypeDefs | database-dsl/src/generator/registration.rs:77-124 | registering a type definition interns the crate name and the name and appends one fact |
| Registrations.InternValueTwice | database/src/data_structures.rs:103-112 | interning the same value twice in a row is the same as interning it once |
| Registrations.RegisterGrows | database-dsl/src/generator/registration.rs:6-22 | every registration only appends: each table and relation keeps its old contents as a prefix, so every key handed out keeps its value, and no counter goes back |
| Registrations.RegisterStringResolves | database-dsl/src/generator/registration.rs:58-75 | the key returned for a string resolves to that string |
| Registrations.RegisterCrateNameResolves | database-dsl/src/generator/registration.rs:58-75 | the crate-name key returned resolves, through the strings table, to the name given |
| Registrations.RegisterBuildResolves | database-dsl/src/generator/registration.rs:24-56 | the build key returned carries the crate hash as given and a crate that resolves to the crate name |
| Registrations.RegisterSpanAppends | database-dsl/src/generator/registration.rs:93-121 | a span registration returns the counter it found, advances it by one and appends exactly one fact with that id, the parent and kind as given and an expansion key that resolves to the string |
| Registrations.RegisterBuildCrateTypeAppends | database-dsl/src/generator/registration.rs:104-121 | a build crate type registration appends exactly one fact with the build as given and a crate-type key that resolves |
| Registrations.RegisterTypeAppends | database-dsl/src/generator/registration.rs:93-121 | a type registration returns the counter it found, advances it and appends one fact with that id and a kind that resolves |
| Registrations.RegisterTypeDefAppends | database-dsl/src/generator/registration.rs:104-121 | a type definition registration appends one fact with the type as given, a crate resolving to the crate name and a name key resolving to the name |
| Registrations.RegisterInternedTwice | database-dsl/src/generator/registration.rs:24-75 | registering an equal string, crate name or build again returns the same key and changes no table |
| Registrations.BuildCrateTypeTwice | database-dsl/src/generator/registration.rs:116-121 | relation registrations do not deduplicate: registering the same build crate type twice leaves two equal facts |
| Registrations.RegisterKeepsIntegral | database-dsl/src/generator/registration.rs:6-22 | a registration whose id arguments are keys keeps every stored interned id a key of its table |
| Registrations.RegisterKeepsDense | database-dsl/src/generator/registration.rs:93-100 | registrations keep the incremental ids dense: span facts carry 1, 2, ... and type facts 0, 1, ... in order, and each counter is the next id |
| Registrations.RegisterSpanKeepsDense | database-dsl/src/generator/registration.rs:93-100 | a span registration on dense spans returns the counter, grows the spans by one fact and keeps them dense |
| Registrations.EmptyTablesIntegralAndDense | database-dsl/src/generator/mod.rs:41-49 | the default tables are integral and dense |
| Merge.KeyMap | database-dsl/src/generator/merge.rs:115-125 | the key map of an interning-table merge is defined on exactly the other side's keys and sends each to the key holding the same value in the merged table |
| Merge.RemapSeq | database-dsl/src/generator/merge.rs:106-109 | remapping replaces each interned id by its image, position by position |
| Merge.RemapBuilds | database-dsl/src/generator/merge.rs:135-148 | a build's crate goes through the crate-name map while its crate hash, a custom id, is copied |
| Merge.InternStage | database-dsl/src/generator/merge.rs:115-125 | interning the other side's values gives the old contents extended by the new values, with a key map defined on exactly the other side's keys |
| Merge.InternStages | database-dsl/src/generator/merge.rs:94-166 | plain tables are merged first, each through the map of the table keying its value, then the tuple table; every key map is defined on exactly the other side's keys |
| Merge.InternedCover | database-dsl/src/generator/merge.rs:94-166 | the key maps of a merge's interning stages are defined on exactly the keys of the other side's tables |
| Merge.CoversByDomains | database-dsl/src/generator/merge.rs:249-254 | key maps defined on every key of an integral other side cover every interned id its relations store, so no lookup aborts |
| Merge.MergeResult | database-dsl/src/generator/merge.rs:67-69 | the interning tables, relations and counters the merge steps leave behind are the state the value-level merge describes |
| Merge.InternEach | database-dsl/src/generator/merge.rs:115-125 | interning the other side's values in key order keeps the table valid, extends it by the new values and returns the map from each old key to the key of its value |
| Merge.MergeInterningTables | database-dsl/src/generator/merge.rs:94-166 | merging the interning tables keeps them valid and leaves the contents and key maps the interning stages describe |
| Merge.MergeSpans | database-dsl/src/generator/merge.rs:226-254 | the spans relation gets the other side's facts appended in order, each with its span ids shifted and its expansion remapped |
| Merge.MergeBuildCrateTypes | database-dsl/src/generator/merge.rs:249-254 | the build crate types relation gets the other side's facts appended in order, with build and crate type remapped |
| Merge.MergeTypes | database-dsl/src/generator/merge.rs:226-265 | the types relation gets the other side's facts appended in order, the type id shifted and then renamed when a keyed fact renamed it, the kind remapped |
| Merge.TableMerger.New | database-dsl/src/generator/merge.rs:60-83 | a merger takes the tables and indexes the key (crate, name) of every type definition to its type |
| Merge.TableMerger.MergeTypeDefs | database-dsl/src/generator/merge.rs:267-295 | each remapped type definition whose key is already indexed is dropped and its type renamed to the indexed one; otherwise its key is indexed and the fact appended |
| Merge.TableMerger.MergeRelations | database-dsl/src/generator/merge.rs:199-316 | the relation with a key target is merged first, then the others, each as the value-level merge states |
| Merge.TableMerger.MergeRest | database-dsl/src/generator/merge.rs:168-332 | after the interning tables, merging the relations and adding the counters past their constants gives the value-level merge's state |
| Merge.TableMerger.MergeFrom | database-dsl/src/generator/merge.rs:84-86 | merging another side's contents keeps the tables valid and leaves the state the value-level merge describes |
| Merge.TableMerger.Merge | database-dsl/src/generator/merge.rs:84-86 | merging consumes the other tables and leaves the state the value-level merge describes, the other side's contents read before self changes |
| MergeProperties.MergeKeepsStrings | database-dsl/src/generator/merge.rs:115-125 | after a merge self's strings keep their keys, the table holds exactly the strings of both sides, each once if self's were, and the strings map sends each key of the other side to its string |
| MergeProperties.MergedStrings | database-dsl/src/generator/merge.rs:115-125 | the merged strings table is the other side's strings interned, in key order, into self's |
| MergeProperties.MergeKeepsChain | database-dsl/src/generator/merge.rs:106-163 | self's crate names and builds keep their keys, and each crate name or build of the other side goes to one naming the same crate string (and, for a build, with the same crate hash) |
| MergeProperties.StageKeys | database-dsl/src/generator/merge.rs:115-125 | interning values keeps the current keys and gives each value a key that holds it |
| MergeProperties.KeyIndexDomain | database-dsl/src/generator/merge.rs:60-63 | the merge map's keys are exactly the keys of the type definitions |
| MergeProperties.KeyedFoldGrows | database-dsl/src/generator/merge.rs:288-295 | the keyed merge loop only appends, at most one fact per fact of the other side |
| MergeProperties.KeyedFoldInvariant | database-dsl/src/generator/merge.rs:288-295 | the keyed merge loop keeps its merge map equal to the index of its facts, keeps their keys unique and only renames dropped types to types the map records |
| MergeLaws.MergeShiftsSpans | database-dsl/src/generator/merge.rs:226-247 | merged spans are self's, then the other side's with non-constant span ids shifted past self's counter, and the counters add up past the constants |
| MergeLaws.SpanShiftsFit | database-dsl/src/generator/merge.rs:226-247 | shifting the non-constant span ids below a counter with the id `shift` never overflows exactly when the shifted counter fits the id type, and each successful shift gives the id `ShiftSpan` gives |
| MergeLaws.MergeSpanShiftsFit | database-dsl/src/generator/merge.rs:226-247 | the merge's shifts of the other side's span ids all succeed exactly when the merged span counter fits the id type |
| MergeLaws.MergeRemapsBuildCrateTypes | database-dsl/src/generator/merge.rs:249-254 | merged build crate types are self's, then the other side's with builds sent through the builds map |
| MergeLaws.MergeRemapsTypes | database-dsl/src/generator/merge.rs:320-332 | merged type facts are self's, then the other side's, and the type counter adds up |
| MergeLaws.MergeKeepsDenseSpans | database-dsl/src/generator/merge.rs:226-247 | merging two sides with dense span ids gives dense span ids: the other side's ids continue right after self's |
| MergeLaws.MergeKeepsKeyIndex | database-dsl/src/generator/merge.rs:267-295 | when the merge map indexes self's type definitions with unique keys, the merged definitions are self's then at most one per other fact, their keys stay unique and the new merge map indexes them |
| MergeLaws.MergeGrows | database-dsl/src/generator/merge.rs:84-86 | a merge only grows self: every table and relation keeps self's entries as a prefix and neither counter goes back |
| MergeLaws.MergeKeepsIntegral | database-dsl/src/generator/merge.rs:249-254 | merging an integral other side into integral tables leaves every stored interned id a key of its merged table |
| MergeLaws.MergeKnownStrings | database-dsl/src/generator/merge.rs:115-125 | merging a side whose strings self already holds leaves self's strings unchanged |
| DatabaseExamples.RegisterTwoCrateNames | database/src/lib.rs:14-28 | two distinct crate names registered into empty tables get keys 0 then 1, and registering the first again returns 0 and changes nothing |
| DatabaseExamples.CrateNamesExample | database/src/lib.rs:14-28 | the table sizes the crate-name test checks after each of its three registrations |
| DatabaseExamples.OverlappingStage | database-dsl/src/generator/merge.rs:115-125 | interning b, c into a table holding a, b keeps b at key 1 and appends c with key 2 |
| DatabaseExamples.MergeTwoCrateNames | database/src/lib.rs:52-66 | merging crate names b, c into a, b leaves the strings a, b, c and three crate names naming them in order |
| DatabaseExamples.CrateNamesMergeExample | database/src/lib.rs:52-66 | the crate-name merge test: three strings and three crate names, naming crate1, crate2 and crate4 in turn |
| DatabaseExamples.RegisterThreeSpans | database/src/lib.rs:672-704 | three spans registered into empty tables get ids 1, 2 and 3 and leave the counter at 4 |
| DatabaseExamples.SpansMergeExample | database/src/lib.rs:750-830 | merging four dense spans into three gives seven spans and counter 8; the other side's spans take ids 4 to 7, a root parent stays the root and other parents follow their spans |
| Loaders.Loader.constructor | database-dsl/src/generator/mod.rs:67-76 | a new loader reads under the database root, with the relation under "relations" and the table under "interning", and caches nothing |
| Loaders.Loader.LoadRelation | database-dsl/src/generator/loader.rs:29-38 | with a cached relation the load returns it without touching the disk; otherwise it reads the file once, caches and returns the facts, or returns the read error and caches nothing |
| Loaders.Loader.StoreRelation | database-dsl/src/generator/loader.rs:39-44 | a store is allowed only while nothing is cached; it then writes the facts in the raw format and caches them, and otherwise changes nothing |
| Loaders.Loader.LoadTable | database-dsl/src/generator/loader.rs:87-92 | the same caching for an interning table: a cached table is returned as is, otherwise the file is read once and cached on success |
| Loaders.Loader.LoadTableAsVec | database-dsl/src/generator/loader.rs:93-96 | the vector form always reads the file, bypassing the cache, and returns the (key, value) rows in key order |
| Loaders.StoreThenLoad | database-dsl/src/generator/loader.rs:29-44 | after a store, a load returns the stored facts without reading the disk |
| Loaders.LoadTwice | database-dsl/src/generator/loader.rs:29-38 | loading twice reads the disk at most twice, and at most once with the same result both times when the first load succeeds |
| DslQueries.ConvertToNamedArg | database-dsl/src/queries.rs:200-216 | the argument's variable name is the type name in snake case, paired with the type |
| DslQueries.SnakeCaseLower | database-dsl/src/queries.rs:203-213 | the variable name holds no upper-case letter |
| DslQueries.SnakeCaseUnderscores | database-dsl/src/queries.rs:204-207 | one underscore is inserted before each upper-case letter except one in the first position |
| DslQueries.SnakeCaseLength | database-dsl/src/queries.rs:203-213 | the name grows by exactly the inserted underscores |
| DslQueries.SnakeCaseKeepsLetters | database-dsl/src/queries.rs:203-213 | apart from the inserted underscores the name is the type name in lower case |
| DslQueries.DefPathExample | database-dsl/src/queries.rs:200-216 | the type DefPath becomes the variable def_path |
| DslQueries.FindTable | database-dsl/src/queries.rs:137-139 | looking up an interning table by name finds one with that name, or reports that none has it |
| DslQueries.FindRelation | database-dsl/src/queries.rs:179-181 | looking up a relation by name finds one with that name, or reports that none has it |
| DslQueries.TableArgsLayout | database-dsl/src/queries.rs:145-163 | a table loaded as a relation declares its key as the first argument, then its value, or each element of a tuple value, each named in snake case |
| DslQueries.ToTokens | database-dsl/src/queries.rs:106-126 | the loop over the load instructions emits what the program's token function describes, and a program without a load block passes through unchanged |
| DslQueries.ErrorPropagates | database-dsl/src/queries.rs:110-117 | once an instruction fails, the whole instruction list fails with that error |
| DslQueries.InstructionsEmitLoads | database-dsl/src/queries.rs:129-198 | successful instructions emit, for each loaded table or relation, one load statement and one input declaration |
| DslQueries.InputsBeforeProgram | database-dsl/src/queries.rs:118-122 | with a load block, the Datalog input is the generated input declarations followed by the program's own tokens, unchanged |
| DslQueries.UnknownOperationFails | database-dsl/src/queries.rs:111-117 | an unknown load operation makes the whole program fail |
| Text.Hex | manager/src/queries/utils.rs:80 | the hex rendering of a hash is non-empty and made of lower-case hex digits |
| Text.HexRoundTrip | manager/src/queries/utils.rs:80 | the hex rendering of a hash reads back as the hash, so distinct hashes render distinctly |
| Text.HexNoLeadingZero | manager/src/queries/utils.rs:80 | only zero renders with a leading '0' |
| Text.HexInjective | manager/src/queries/utils.rs:123-125 | two hashes with the same rendering are equal |
| Text.StringLeTotal | manager/src/queries/prepare_builds.rs:126 | any two strings are ordered one way or the other in Rust's byte-wise string order |
| Text.StringLeTransitive | manager/src/queries/prepare_builds.rs:126 | the string order is transitive |
| Text.StringLeAntisymmetric | manager/src/queries/prepare_builds.rs:126 | two strings each below the other are equal |
| Text.SortByCorrect | manager/src/queries/resolved_calls.rs:100-102 | sorting by a string key orders the elements by key and keeps exactly the same elements |
| Text.SortStringsCorrect | manager/src/queries/prepare_builds.rs:122-127 | sorted strings are ascending and are the same strings |
| Text.JoinLength | manager/src/queries/prepare_builds.rs:127 | a join is as long as its parts plus one separator between each two |
| QueryUtils.SortByKeyCorrect | manager/src/queries/utils.rs:34 | sorting by key orders the elements by key and is a permutation |
| QueryUtils.SortByKeyStable | manager/src/queries/utils.rs:34 | the sort is stable: the elements of each key keep their input order |
| QueryUtils.GroupRunsCorrect | manager/src/queries/utils.rs:34 | grouping a sorted sequence gives one group per run of equal keys, in order, whose concatenation is the sequence |
| QueryUtils.SafeGroupByCorrect | manager/src/queries/utils.rs:22-35 | safe grouping gives strictly ascending keys, so one group per key; each group holds exactly the input's elements of its key in input order, and every element lies in its key's group |
| QueryUtils.KeyFilterMember | manager/src/queries/utils.rs:22-35 | the elements of one key are exactly the input's elements having that key |
| QueryUtils.CollectMapSpec | manager/src/queries/utils.rs:149-169 | collecting rows into a map gives a key exactly when some row has it, mapped to the value of the last such row |
| QueryUtils.SelectedBuildsMapLast | manager/src/queries/utils.rs:222-229 | the selected-builds map knows a (crate, hash) exactly when a selected build has it, and maps it to the last such build |
| QueryUtils.LastBuildForSpec | manager/src/queries/utils.rs:222-229 | a selected build with the crate and hash exists exactly when the lookup finds one, and the one found is the last such entry |
| QueryUtils.FilterSelected | manager/src/queries/utils.rs:194-238 | filtering succeeds exactly when every element's def path is a key of the def-path table, and keeps at most the input's elements |
| QueryUtils.FilterSelectedOne | manager/src/queries/utils.rs:230-236 | one element is kept exactly when a selected build has its def path's crate and hash, and it is paired with the last such build |
| QueryUtils.FilterSelectedAppend | manager/src/queries/utils.rs:230-237 | filtering distributes over concatenation, so kept elements stay in input order |
| QueryUtils.FilterSelectedMember | manager/src/queries/utils.rs:194-238 | an output is exactly an input element whose def path belongs to a selected build, paired with that build |
| QueryUtils.ResolveBuildSpec | manager/src/queries/utils.rs:74-83 | a build resolves exactly when its id and all its parts are keys; the hash column reads back as the crate hash, and builds resolving alike have equal hashes |
| QueryUtils.ResolveDefPathHashes | manager/src/queries/utils.rs:118-128 | a def path resolves exactly when its id and parts are keys, and both hash columns read back as its hashes |
| QueryUtils.SpanMapLastRow | manager/src/queries/utils.rs:149-169 | the span map knows exactly the spans of the rows, each from its last row |
| QueryUtils.ResolveSpan | manager/src/queries/utils.rs:176-186 | a resolved span carries the span itself, its kind's name, its description and file-name strings, line and column |
| QueryUtils.ResolveSpanKind | manager/src/queries/utils.rs:176-190 | the resolved kind name is a kind's name exactly when the span has that expansion kind, so the resolver's two lookups agree |
| PrepareBuilds.Query | manager/src/queries/prepare_builds.rs:42-282 | the query's loops over the builds, the candidates and the packages compute the value-level result, failing where the source panics |
| PrepareBuilds.FirstPass | manager/src/queries/prepare_builds.rs:97-192 | the loop over all builds computes the first pass's scripts, selected builds, candidates, drops and package flags |
| PrepareBuilds.SecondPass | manager/src/queries/prepare_builds.rs:210-247 | the loop over the candidates, with its taken-candidates set, computes the second pass |
| PrepareBuilds.CountPackages | manager/src/queries/prepare_builds.rs:265-273 | the final loop counts the packages flagged true and those flagged false |
| PrepareBuilds.FirstPassStops | manager/src/queries/prepare_builds.rs:136-142 | once the first pass fails it stays failed with the same error |
| PrepareBuilds.FirstPassChosen | manager/src/queries/prepare_builds.rs:53-56 | the first pass keeps one flag per package of the original list, and a package is flagged exactly when one of its builds was selected |
| PrepareBuilds.StepFails | manager/src/queries/prepare_builds.rs:135-142 | one step fails exactly when the build's files were recorded but its package version is not in the original list |
| PrepareBuilds.FirstPassFails | manager/src/queries/prepare_builds.rs:135-142 | the first pass fails exactly when some recorded build's package version is not in the original list |
| PrepareBuilds.FirstPassScripts | manager/src/queries/prepare_builds.rs:110-120 | the build scripts and the candidates (builds without recorded files) are set aside in input order |
| PrepareBuilds.FirstPassSelects | manager/src/queries/prepare_builds.rs:135-176 | the first pass selects, in input order, each recorded build that comes first with its (package, crate, crate types) key; the included keys are exactly those keys and no two selected rows share one |
| PrepareBuilds.FirstPassDrops | manager/src/queries/prepare_builds.rs:145-162 | the drop count is zero exactly when every duplicate is a proc-macro build or charmhelpers 0.1.3 |
| PrepareBuilds.SecondPassSelects | manager/src/queries/prepare_builds.rs:213-247 | the second pass appends, in candidate order, each candidate from the original list whose key is new; the taken-candidates test never decides anything, since taken keys are always included |
| PrepareBuilds.NewCandidatesDistinct | manager/src/queries/prepare_builds.rs:231-233 | the candidates the second pass adds have distinct keys, none already included |
| PrepareBuilds.QueryFails | manager/src/queries/prepare_builds.rs:135-197 | the query fails exactly when a recorded build's package version is not in the original list, or a recorded build duplicates a key without being an expected duplicate |
| PrepareBuilds.QuerySelects | manager/src/queries/prepare_builds.rs:165-263 | the selected builds are the first-pass picks followed by the new candidates, no two with the same key, and the build scripts are exactly the builds whose crate name starts with build_script_ |
| PrepareBuilds.QuerySelectsOriginals | manager/src/queries/prepare_builds.rs:135-246 | every selected build is of a package version in the original list and is not a build script |
| PrepareBuilds.QueryCovers | manager/src/queries/prepare_builds.rs:210-247 | every non-script build of a package version in the original list is represented: some selected build has its key |
| PrepareBuilds.QueryCountsAllPackages | manager/src/queries/prepare_builds.rs:265-273 | the chosen and not-chosen counts add up to the number of packages in the original list |
| PrepareBuilds.QueryCountsChosen | manager/src/queries/prepare_builds.rs:176 | the chosen count is the number of packages with a first-pass pick |
| Closures.StepMonotone | manager/src/queries/prepare_items.rs:14 | one round of a recursive rule is monotone in the facts it starts from |
| Closures.SeedInUniverse | manager/src/queries/prepare_items.rs:13-14 | the finite universe the fixpoint iterates in contains the facts of the base rule |
| Closures.UniverseClosed | manager/src/queries/prepare_items.rs:13-14 | applying the recursive rule to the universe stays inside it, so iteration terminates |
| Closures.IterateCorrect | manager/src/queries/prepare_items.rs:13-14 | bottom-up iteration from the base facts yields a closed set between the base facts and the universe |
| Closures.IterateLeast | manager/src/queries/prepare_items.rs:13-14 | the iteration result lies inside every closed set holding the base facts |
| Closures.ClosureCorrect | manager/src/queries/prepare_items.rs:13-14 | the datalog result holds the base facts and is closed under the recursive rule |
| Closures.ClosureLeast | manager/src/queries/prepare_items.rs:13-14 | the datalog result is the least such set: nothing underivable is produced |
| Closures.ClosureTags | manager/src/queries/prepare_items.rs:14 | every derived fact keeps the tag (build) of a base fact |
| Closures.ClosureNodes | manager/src/queries/prepare_items.rs:14 | every derived node is a base node or the child end of an edge |
| PrepareItems.SelectedModulesRules | manager/src/queries/prepare_items.rs:13-14 | `selected_modules` holds the root module of every selected build and every submodule of a selected module |
| PrepareItems.SelectedModulesLeast | manager/src/queries/prepare_items.rs:6-15 | `selected_modules` is contained in every relation obeying both rules |
| PrepareItems.SelectedModulesBuilds | manager/src/queries/prepare_items.rs:13-14 | every selected module belongs to a selected build |
| PrepareItems.CheckCrateWithHashIsKey | manager/src/queries/prepare_items.rs:23-36 | reports no duplicate exactly when `(krate, crate_hash)` identifies each build; a reported key is shared by two builds |
| PrepareItems.UsesUnsafeSpec | manager/src/queries/prepare_items.rs:52-61 | a def path without a `function_unsafe_use` row does not use unsafe; with rows, the last one collected decides |
| PrepareItems.ComputeSelectedFunctionsAndMirCfgs | manager/src/queries/prepare_items.rs:38-76 | fails on a duplicate build key; otherwise the selected MIR bodies and functions are exactly those whose def paths belong to selected builds, each function tagged with its unsafe use |
| CountersQuery.SelectedScopesRules | manager/src/queries/counters.rs:27-42 | `selected_scopes` holds the subscopes of each selected MIR body's root scope and the subscopes of every selected scope |
| CountersQuery.SelectedScopesLeast | manager/src/queries/counters.rs:12-43 | `selected_scopes` is contained in every relation obeying both rules |
| CountersQuery.SelectedScopesTags | manager/src/queries/counters.rs:31-39 | every selected scope carries the build and def path of a selected MIR body |
| CountersQuery.UnsafeGroupKeyInjective | manager/src/queries/counters.rs:78-89 | two rows share a group exactly when they share MIR body and `explicit_unsafe_group` |
| CountersQuery.ExplicitUnsafeRows | manager/src/queries/counters.rs:64-77 | keeps exactly the rows whose safety is explicit unsafe |
| CountersQuery.UnsafeGroupsSpec | manager/src/queries/counters.rs:64-91 | each group is non-empty and holds exactly the explicit-unsafe rows of one MIR body and unsafe group |
| CountersQuery.Roots | manager/src/queries/counters.rs:121 | the roots of a group are exactly its rows whose parent is not one of the group's scopes |
| CountersQuery.RootsAppend | manager/src/queries/counters.rs:110-148 | the roots of a concatenation are the roots of each part in order |
| CountersQuery.RootsSingle | manager/src/queries/counters.rs:109-149 | a group has one root exactly when one row's parent lies outside the group, and then that row is the root |
| CountersQuery.GroupOutcomeSpec | manager/src/queries/counters.rs:109-149 | a group yields a block exactly when it has one root, the root's span resolves and its build is selected; the block is that root |
| CountersQuery.CollectChildren | manager/src/queries/counters.rs:94-108 | the first loop collects exactly the scopes of the group |
| CountersQuery.FindRoot | manager/src/queries/counters.rs:109-149 | the second loop with its `found` flag returns the group's specified outcome: the block or the failed assertion |
| CountersQuery.ProcessGroup | manager/src/queries/counters.rs:92-150 | one group's loop body: its children and its outcome as specified |
| CountersQuery.RootsFor | manager/src/queries/counters.rs:144-146 | maps exactly the group's scopes, each to the root's scope, build and check mode |
| CountersQuery.Outcomes | manager/src/queries/counters.rs:91-150 | one outcome per group, each the group's scopes and its specified outcome |
| CountersQuery.FindUnsafeBlocks | manager/src/queries/counters.rs:60-150 | the loop over the groups returns the specified blocks and root map, or the first failure |
| CountersQuery.FoldBlocksStops | manager/src/queries/counters.rs:121-149 | once a group fails, later groups do not change the failure |
| CountersQuery.FoldBlocksAll | manager/src/queries/counters.rs:91-150 | the fold succeeds exactly when every group does, and then block `i` is group `i`'s |
| CountersQuery.FoldBlocksRoots | manager/src/queries/counters.rs:144-146 | the root map holds exactly the scopes of the groups, each mapped by the last group holding it |
| CountersQuery.FindBlocksAll | manager/src/queries/counters.rs:91-150 | the query succeeds exactly when every group yields a block, and block `i` is group `i`'s |
| CountersQuery.FindBlocksRoots | manager/src/queries/counters.rs:144-146 | `unsafe_root_scopes` maps exactly the scopes of the groups, each to the root of the last group holding it |
| CountersQuery.UnsafeBlocksFromSelected | manager/src/queries/counters.rs:121-137 | every unsafe block comes from a selected build and is a scope of its group whose parent is outside the group |
| CountersQuery.TagInside | manager/src/queries/counters.rs:159-168 | keeps at most the input's elements |
| CountersQuery.TagInsideMember | manager/src/queries/counters.rs:159-183 | an output element is an input element whose scope has a root, tagged with that root |
| CountersQuery.UnsafeStatementsSpec | manager/src/queries/counters.rs:158-170 | a statement is unsafe exactly when its scope lies in an unsafe block, tagged with that block's root scope, build and check mode |
| CountersQuery.UnsafeTerminatorsSpec | manager/src/queries/counters.rs:173-184 | a terminator is unsafe exactly when its scope lies in an unsafe block, tagged with that block's root |
| CountersQuery.BlockCountsSpec | manager/src/queries/counters.rs:200-248 | a function without unsafe blocks counts 0, and user-written blocks never outnumber all blocks |
| CountersQuery.FunctionReports | manager/src/queries/counters.rs:228-253 | one report row per selected function, in order, with its block counts and trait-item flag |
| CountersQuery.FunctionReportsBounded | manager/src/queries/counters.rs:241-248 | no report row counts more user-written blocks than blocks |
| SizeQuery.KeyCodeOrder | manager/src/queries/size.rs:14-18 | for unsafe scopes below the bound, the integer code orders `(build, unsafe_scope, check_mode)` keys as the derived tuple order does (build, then scope, then check mode in declaration order), and equal codes mean equal keys |
| SizeQuery.ScopeBound | manager/src/queries/size.rs:14-18 | the bound lies above the unsafe scope of every element, so every element's key is coded in tuple order |
| SizeQuery.GroupSizeIsCount | manager/src/queries/size.rs:19-31 | a group's size is the number of unsafe statements carrying its `(build, unsafe_scope, check_mode)` key |
| SizeQuery.StatementSizes | manager/src/queries/size.rs:19-31 | the map over the groups with the `seen_scopes` assertion returns the specified rows, or the first duplicate scope |
| SizeQuery.StatementSizesStops | manager/src/queries/size.rs:22-27 | once a duplicate scope panics, later groups do not change the outcome |
| SizeQuery.StatementSizesSpecCorrect | manager/src/queries/size.rs:19-31 | the seen-scope assertion holds exactly when no two groups share an unsafe scope; then row `i` is group `i`'s key and size, and the seen scopes are the groups' scopes |
| SizeQuery.StatementSizesRows | manager/src/queries/size.rs:29 | each row carries its group's build, scope, check mode and statement count |
| SizeQuery.StatementSizesOk | manager/src/queries/size.rs:22-28 | the assertion holds exactly when the groups' unsafe scopes are pairwise distinct |
| SizeQuery.CountKeyZero | manager/src/queries/size.rs:47-50 | a key counts zero exactly when no element carries it, which is the `unwrap_or(0)` default |
| SizeQuery.WithTerminators | manager/src/queries/size.rs:44-59 | one output row per statement-group row |
| SizeQuery.GroupKeyCode | manager/src/queries/size.rs:14-18 | a group's integer key is the code of the key of its first row, whose scope is below the bound |
| SizeQuery.SizeQueryCounts | manager/src/queries/size.rs:44-59 | a block's statement count is the number of its unsafe statements and its terminator count the number of its unsafe terminators |
| SizeQuery.SizeQueryTerminatorOnly | manager/src/queries/size.rs:60-65 | terminator-only rows are exactly the blocks with terminators whose scope has no statement group, each with statement count 0 |
| SizeQuery.SizeQueryOrder | manager/src/queries/size.rs:14-31 | the blocks with statements are reported in strictly ascending `(build, unsafe_scope, check_mode)` tuple order, the order `safe_group_by` sorts the statements in |
| FunctionSizeQuery.FunctionDefinitionsSelected | manager/src/queries/function_size.rs:64-73 | every MIR body mapped to a definition has a selected MIR body row, and the definition is a selected function definition |
| FunctionSizeQuery.DefinitionsByItemSelected | manager/src/queries/function_size.rs:31-63 | each item maps to a selected function definition of that item |
| FunctionSizeQuery.CollectSizes | manager/src/queries/function_size.rs:75-109 | the statement loop computes the specified per-build and per-body tallies |
| FunctionSizeQuery.SizesOfAppend | manager/src/queries/function_size.rs:81-91 | one more statement bumps the total, the unsafe count when its scope is not safe, and the user-unsafe count when its scope is fn-unsafe or a user-provided unsafe block |
| FunctionSizeQuery.TallyBuilds | manager/src/queries/function_size.rs:78-92 | a build has an entry exactly when one of its statements lies in a selected scope, and the entry counts those statements |
| FunctionSizeQuery.TallyBodies | manager/src/queries/function_size.rs:93-107 | a MIR body has an entry exactly when one of its statements lies in a selected scope, and the entry counts those statements |
| FunctionSizeQuery.CountsBounded | manager/src/queries/function_size.rs:84-91 | unsafe and user-unsafe counts never exceed the total |
| FunctionSizeQuery.TallyBounded | manager/src/queries/function_size.rs:78-109 | for every build and body, unsafe <= total and user-unsafe <= total |
| FunctionSizeQuery.FunctionSizeQuerySpec | manager/src/queries/function_size.rs:120-154 | a function size is reported only for a selected function with a selected MIR body, with a positive total bounding both sub-counts |
| FunctionSizeQuery.FunctionDefinitionsItem | manager/src/queries/function_size.rs:67-71 | a body's definition is the one of the item of a selected MIR body row for it |
| ResolvedCallsQuery.RowOfSpec | manager/src/queries/resolved_calls.rs:57-89 | a call is dropped exactly when it has no constant target; a kept row has empty receiver columns exactly when no self type is recorded and an empty macro path exactly when no macro is recorded |
| ResolvedCallsQuery.RowsSpec | manager/src/queries/resolved_calls.rs:56-90 | the rows exist exactly when no call panics; one row per kept call, and each row is produced by some call |
| ResolvedCallsQuery.BumpCount | manager/src/queries/resolved_calls.rs:92-95 | incrementing an entry adds one to that row's count and to the total, and leaves other rows' counts alone |
| ResolvedCallsQuery.BumpHas | manager/src/queries/resolved_calls.rs:93 | incrementing gives the row an entry and no other row one |
| ResolvedCallsQuery.BumpDistinct | manager/src/queries/resolved_calls.rs:93 | incrementing keeps one entry per row, as a map does |
| ResolvedCallsQuery.CountOfEntry | manager/src/queries/resolved_calls.rs:96-98 | with distinct rows, a row's count is its entry's count |
| ResolvedCallsQuery.CountOfAbsent | manager/src/queries/resolved_calls.rs:93 | a row without an entry counts zero |
| ResolvedCallsQuery.TallySpec | manager/src/queries/resolved_calls.rs:92-98 | the counts hold each row once, exactly when it occurs, with its number of occurrences, and add up to the number of rows |
| ResolvedCallsQuery.TallyPositive | manager/src/queries/resolved_calls.rs:92-95 | every entry counts at least one call |
| ResolvedCallsQuery.TotalInsert | manager/src/queries/resolved_calls.rs:100-103 | inserting an entry into a sorted list adds its count to the total |
| ResolvedCallsQuery.TotalSort | manager/src/queries/resolved_calls.rs:100-103 | sorting by target keeps the total |
| ResolvedCallsQuery.AllCallsSpec | manager/src/queries/resolved_calls.rs:92-103 | `all_calls` is sorted by target, is a permutation of the counted rows, and its counts add up to the number of calls with a constant target |
| ResolvedCallsQuery.AllCallsMember | manager/src/queries/resolved_calls.rs:92-103 | every reported row was produced by some call and counts exactly its occurrences, at least one |
| ResolvedCallsQuery.CrossCrateCallsSpec | manager/src/queries/resolved_calls.rs:105-107 | the cross-crate report keeps exactly the rows whose caller and target crates differ |
| ResolvedCallsQuery.CrossCrateCallsSorted | manager/src/queries/resolved_calls.rs:105-107 | filtering a sorted report keeps it sorted |
| UnsafeReasonsQuery.Pairs | manager/src/queries/unsafe_reasons.rs:14-17 | one `(def_path, reason)` pair per row, in order, with the reason index dropped |
| UnsafeReasonsQuery.InternAllShorter | manager/src/queries/unsafe_reasons.rs:18 | collecting into a set never yields more pairs than there are rows |
| UnsafeReasonsQuery.DistinctPairsSpec | manager/src/queries/unsafe_reasons.rs:14-19 | the set of pairs holds every input pair, nothing else, none twice, and is no larger than the input |
| UnsafeReasonsQuery.ResolveAllSpec | manager/src/queries/unsafe_reasons.rs:19-21 | resolution succeeds exactly when every pair resolves, and then gives one row per pair, position by position |
| UnsafeReasonsQuery.ResolvePairSpec | manager/src/queries/unsafe_reasons.rs:20 | a pair resolves exactly when its def path resolves and its reason is a string index; the row is the resolved path and the reason's string |
| UnsafeReasonsQuery.UnsafeReasonsSpec | manager/src/queries/unsafe_reasons.rs:10-23 | the report exists when every input row resolves; it has one row per distinct pair, holds the resolution of every input row, and is no longer than the input |
| UnsafeReasonsQuery.UnsafeReasonsFromRows | manager/src/queries/unsafe_reasons.rs:14-21 | every report row is the resolution of some input row |
| BuildFilesQuery.BuildScriptKrateSpec | manager/src/queries/build_files.rs:15-16 | the query fails exactly when no crate is named `build_script_build`, and otherwise finds the crate with that name |
| BuildFilesQuery.ScriptBuildsSpec | manager/src/queries/build_files.rs:18-28 | a row is kept exactly when its build's crate is the build-script crate, with the edition dropped; no rows are added |
| BuildFilesQuery.ScriptCratesOk | manager/src/queries/build_files.rs:29-40 | the report exists exactly when every build's package name, version and crate name are known |
| BuildFilesQuery.ScriptCratesRows | manager/src/queries/build_files.rs:29-40 | one row per build, in order, with its crate name and a crate hash written in hex that reads back to the hash |
| BuildFilesQuery.BuildScopesRules | manager/src/queries/build_files.rs:55-62 | `build_scopes` holds the root scope of every MIR body of a build-script build and every subscope of a build scope |
| BuildFilesQuery.BuildScopesLeast | manager/src/queries/build_files.rs:42-63 | `build_scopes` is contained in every relation obeying both rules |
| BuildFilesQuery.BuildScopesBuilds | manager/src/queries/build_files.rs:56-62 | every build scope belongs to a build-script build |
| BuildFilesQuery.BuildFilesSpec | manager/src/queries/build_files.rs:8-64 | every reported crate is named `build_script_build`, and every scope belongs to a build of such a crate |
| CompilationUtils.FirstMatchResult | manager/src/compilation_utils.rs:49-104 | an if-chain returns the result of a matching test, or its default when no test matches |
| CompilationUtils.FirstMatchWins | manager/src/compilation_utils.rs:49-104 | the first matching test of the if-chain decides |
| CompilationUtils.TableResults | manager/src/compilation_utils.rs:49-104 | every failure test gives an error; the eleven line tests before the last give errors and the last gives an internal compiler error |
| CompilationUtils.CheckLineFirstMatch | manager/src/compilation_utils.rs:47-105 | the test that matches a line first decides its classification, in the source's order |
| CompilationUtils.CompilationFailedIsError | manager/src/compilation_utils.rs:49-74 | a "Compilation failed: " line is always an error, the unknown-failure reason when no failure test matches |
| CompilationUtils.InternalErrorOnlyAfterErrors | manager/src/compilation_utils.rs:75-101 | an internal compiler error is reported only for a line that is not a "Compilation failed: " line and matches none of the error tests |
| CompilationUtils.CheckLineOk | manager/src/compilation_utils.rs:102-104 | a line is `Ok` exactly when it is not a "Compilation failed: " line and no line test matches it |
| CompilationUtils.FirstNonOkSpec | manager/src/compilation_utils.rs:31-45 | the scan stops at the first line that is not `Ok`; every earlier line is `Ok` |
| CompilationUtils.Failures.constructor | manager/src/compilation_utils.rs:21-23 | a new `Failures` has no reasons, no internal errors and no unknown failures |
| CompilationUtils.Failures.Update | manager/src/compilation_utils.rs:24-46 | a missing log changes nothing; otherwise the first error bumps its reason, an internal error records the log, and a log with no telling line is an unknown failure |
| CompilationUtils.CheckCompilation | manager/src/compilation_utils.rs:128-149 | the counters are those of the failed directories, and with `delete_failures` exactly the failed directories are deleted |
| CompilationUtils.CountsOfSpec | manager/src/compilation_utils.rs:128-147 | each failed directory with a log lands in exactly one category: internal errors and unknown failures in order, and each reason counts its logs |
| CompilationUtils.CountsOfSkips | manager/src/compilation_utils.rs:133-146 | `stdlib`, a directory holding `success` and a failed directory without a log change nothing |
| UnsafeTypesQuery.WithSummaryMember | manager/src/queries/unsafe_types.rs:30-41 | an ADT is kept exactly when its def path's summary key is the given one |
| UnsafeTypesQuery.UnsafeCellTypesSpec | manager/src/queries/unsafe_types.rs:22-52 | the query fails exactly when "core.cell.UnsafeCell" or its summary key is not interned, and otherwise yields the ADTs whose def path has that summary key |
| UnsafeTypesQuery.UnionTypesSpec | manager/src/queries/unsafe_types.rs:54-68 | the union types are exactly the ADTs of kind union |
| UnsafeTypesQuery.RulesFromEdges | manager/src/queries/unsafe_types.rs:82-104 | a set containing the base relations and closed under the field, array, slice, reference and tuple edges satisfies every rule |
| UnsafeTypesQuery.ClosureOfTypes | manager/src/queries/unsafe_types.rs:82-104 | the closure of a set of types contains it and is closed under the edges |
| UnsafeTypesQuery.UnsafeTypesRules | manager/src/queries/unsafe_types.rs:82-104 | `unsafe_types` satisfies every rule of the program |
| UnsafeTypesQuery.UnsafeTypesLeast | manager/src/queries/unsafe_types.rs:70-109 | `unsafe_types` lies inside every set satisfying the rules: a type is unsafe only if the rules force it |
| UnsafeTypesQuery.IsSafeWrapper | manager/src/queries/unsafe_types.rs:156-172 | the loop with its flag and early return decides whether an ADT's fields make it a safe wrapper |
| UnsafeTypesQuery.CollectSafeWrapperTypes | manager/src/queries/unsafe_types.rs:145-177 | returns the keys of the field groups that are safe wrappers, in group order |
| UnsafeTypesQuery.SafeWrapperKeysMember | manager/src/queries/unsafe_types.rs:154-173 | a key is kept exactly when its group is a safe wrapper |
| UnsafeTypesQuery.SafeWrapperKeysAscending | manager/src/queries/unsafe_types.rs:154-173 | groups with ascending keys give ascending, hence duplicate-free, safe wrappers |
| UnsafeTypesQuery.SafeWrapperTypesSpec | manager/src/queries/unsafe_types.rs:145-177 | a safe wrapper is exactly an ADT with a field of unsafe type and no public field of unsafe type; the list has no duplicates |
| UnsafeTypesQuery.TypeDefsOfSpec | manager/src/queries/unsafe_types.rs:111-143 | the reported type definitions are exactly the selected ones whose type is in the set, no more than the input |
| UnsafeBlockGroupsQuery.BlockCallsSpec | manager/src/queries/unsafe_block_groups.rs:16-33 | every call of an unsafe block joins an unsafe terminator and a call terminator of the same block, with their columns |
| UnsafeBlockGroupsQuery.CountsOf | manager/src/queries/unsafe_block_groups.rs:40-56 | one count row per group |
| UnsafeBlockGroupsQuery.CountsOfTotal | manager/src/queries/unsafe_block_groups.rs:40-56 | the counts add up to the number of grouped calls |
| UnsafeBlockGroupsQuery.CountsOfAt | manager/src/queries/unsafe_block_groups.rs:48-55 | row `i` is group `i`'s `(build, unsafe_scope, check_mode)` key and size |
| UnsafeBlockGroupsQuery.CallCountsSpec | manager/src/queries/unsafe_block_groups.rs:40-56 | each block with calls has one row, whose count is its number of calls; rows are strictly ascending in `(build, unsafe_scope, check_mode)` tuple order; the counts add up to the number of calls |
| UnsafeBlockGroupsQuery.NoCallBlocksMember | manager/src/queries/unsafe_block_groups.rs:67-76 | a block is kept exactly when its scope has no calls |
| UnsafeBlockGroupsQuery.NoCallBlocksSpec | manager/src/queries/unsafe_block_groups.rs:62-76 | a block is reported as making no calls exactly when no unsafe-block call has its scope |
| UnsafeBlockGroupsQuery.CountKeyPositive | manager/src/queries/unsafe_block_groups.rs:42-46 | a key with a positive count belongs to some call |
| UnsafeBlockGroupsQuery.CallPartition | manager/src/queries/unsafe_block_groups.rs:147-216 | the non-const and const reports split the calls: a call is non-const exactly when no constant target is recorded for it, and const with the collected target otherwise |
| UnsafeBlockCallsQuery.TargetOfSpec | manager/src/queries/unsafe_block_calls.rs:44-62 | a constant target's hash column reads back as its crate hash and is never "non-const"; only a constant target can be a trait item |
| UnsafeBlockCallsQuery.BlockCallRowsSpec | manager/src/queries/unsafe_block_calls.rs:11-83 | one row per call, in order, with the call's columns, its unsafe scope's span and its target's columns; fails exactly when a target or a scope span is missing |
| UnsafeBlockCallsQuery.AllCallRowsSpec | manager/src/queries/unsafe_block_calls.rs:86-126 | one row per call terminator, in order; a call without a constant target is "non-const" and not a trait item, and a constant target's summary key agrees with the unsafe-block report |
| TraitsQuery.AllTraitsSpec | manager/src/queries/traits.rs:18-31 | the report exists exactly when every trait's def path resolves, and has one row per trait in input order |
| TraitsQuery.GroupCountsAt | manager/src/queries/traits.rs:48-53 | the counts map has exactly the groups' keys, each mapped to its group's size |
| TraitsQuery.TraitImplCountsSpec | manager/src/queries/traits.rs:47-65 | a trait's impl count is the number of `trait_impls` rows naming it, and 0 when there are none |
| TraitsQuery.WithImplCountsMember | manager/src/queries/traits.rs:55-68 | a selected trait row is a selected trait paired with its impl count |
| TraitsQuery.SelectedTraitRowsSpec | manager/src/queries/traits.rs:33-68 | a selected trait row is a trait of a selected build with the number of impls that name it |
| TraitsQuery.ImplsOfTraitsMember | manager/src/queries/traits.rs:129-157 | a selected impl definition is reported exactly when its item has a recorded trait, with that trait |
| TraitsQuery.ImplsOfTraitsSpec | manager/src/queries/traits.rs:76-157 | an impl definition is reported only when it belongs to a selected build and implements a trait, with the trait of the last `trait_impls` row for its item |
| TypesQuery.WithTypeKindsSpec | manager/src/queries/types.rs:29-40 | attaching kinds succeeds exactly when every type has a kind, and then pairs each row with its type's kind |
| TypesQuery.SelectedTypeDefsSpec | manager/src/queries/types.rs:24-41 | a selected type definition is exactly a type definition from a selected build, paired with that build and with its type's kind |
| TypesQuery.SelectedAdtsSpec | manager/src/queries/types.rs:63-94 | at most one ADT row per selected type definition, exactly for the definitions whose type has an ADT definition, carrying that definition |
| TypesQuery.SelectedAdtFieldsSpec | manager/src/queries/types.rs:166-217 | field rows exist exactly for the fields of selected ADTs, reuse their ADT's row and carry the field type's kind; the query fails exactly when such a field's type has no kind |
| TypesQuery.SelectedAdtFieldFromSelected | manager/src/queries/types.rs:129-217 | a field row's ADT is a selected ADT of the field's ADT type, from a selected type definition |
| NonTreeTypesQuery.NonTreeAdtsAppend | manager/src/queries/non_tree_types.rs:34-69 | the filter distributes over concatenation |
| NonTreeTypesQuery.NonTreeAdtsMember | manager/src/queries/non_tree_types.rs:49 | a selected ADT is kept exactly when its type is a non-tree type |
| NonTreeTypesQuery.NonTreeAdtsSpec | manager/src/queries/non_tree_types.rs:15-71 | a reported row is a selected ADT with a raw-pointer field, whatever its `c_repr` flag, in input order |
| NonTreeTypesQuery.NonTreeAdtsSplit | manager/src/queries/non_tree_types.rs:34-69 | the rows of the input are those of any prefix followed by those of the rest |
| RustqlData.GetFilename | rustql-common/src/data.rs:82-88 | the bundle file name is the crate name, then '_', then the configuration hash |
| RustqlData.LastSeparator | rustql-common/src/data.rs:82-88 | finds the last '_' of a file name, or reports that there is none |
| RustqlData.FilenameRoundTrip | rustql-common/src/data.rs:82-88 | a configuration hash without '_' can be read back from the file name, name and hash both |
| RustqlData.FilenameUnique | rustql-common/src/data.rs:12-19 | with such hashes, equal file names mean equal crate identifiers and vice versa |
| RustqlData.FilenameCollision | rustql-common/src/data.rs:82-88 | without that condition two different crates share a file name |
| RustqlData.NewCrate | rustql-common/src/data.rs:92-105 | the identifier holds the name and configuration hash, and the crate has no modules, structs or functions |
| RustqlData.NewCrateIgnoresVersion | rustql-common/src/data.rs:92-98 | the version is not stored: crates created with different versions are equal |
| RustqlData.NewGlobalDefPath | rustql-common/src/data.rs:132-139 | stores the crate identifier and def path unchanged |
| RustqlTuples.KeyOf | rustql-common/src/tuples.rs:101-103 | the first component of the first pair whose second component matches, or none when no pair matches |
| RustqlTuples.ValueOf | rustql-common/src/tuples.rs:112-122 | the second component of the first pair whose first component matches, or none when no pair matches |
| RustqlTuples.FirstModuleNamed | rustql-common/src/tuples.rs:167-172 | the position of the first module with the name, or none when no module has it |
| RustqlTuples.StructWithPath | rustql-common/src/tuples.rs:215-219 | the position of the first struct with the def path, or none when no struct has it |
| RustqlTuples.ValidTableDistinct | rustql-common/src/tuples.rs:178-194 | in a table kept by `add_type_or_get` no type is listed twice |
| RustqlTuples.InternTypeSpec | rustql-common/src/tuples.rs:178-194 | a known type keeps the table and returns its id; an unknown type gets id `len` and is appended and recorded; the table stays valid and lists the type under the id |
| RustqlTuples.InternFactsTable | rustql-common/src/tuples.rs:203-209 | interning several types keeps the table valid and only appends types |
| RustqlTuples.RecordsTypesExtend | rustql-common/src/tuples.rs:203-209 | one more recorded type extends the facts recorded so far |
| RustqlTuples.InternFactsLength | rustql-common/src/tuples.rs:203-209 | one fact per type is appended and earlier facts are kept |
| RustqlTuples.InternFactsFacts | rustql-common/src/tuples.rs:203-209 | the appended facts name the owner and, in order, the id under which each type is listed |
| RustqlTuples.InternFactsOne | rustql-common/src/tuples.rs:210-213 | interning one type appends exactly one fact with its id |
| RustqlTuples.InternFactsGrow | rustql-common/src/tuples.rs:203-213 | interning keeps the table valid, only appends types, and only appends facts naming the owner |
| RustqlTuples.ReferenceLinkedToItself | rustql-common/src/tuples.rs:199-202 | as written, every listed reference type is linked to its own id |
| RustqlTuples.LinkTypeReference | rustql-common/src/tuples.rs:199-202 | corrected: a reference type is linked to the id of the type it refers to |
| RustqlTuples.LinkTypeTuple | rustql-common/src/tuples.rs:203-209 | a tuple type gets one `tuple` fact per element, naming the element's id |
| RustqlTuples.LinkTypeSlice | rustql-common/src/tuples.rs:210-214 | a slice type gets one `slice` fact naming its element's id |
| RustqlTuples.LinkTypeStruct | rustql-common/src/tuples.rs:215-225 | a struct type is linked to the first struct with its def path, and to nothing when there is none; no type is interned |
| RustqlTuples.LinkTypeTable | rustql-common/src/tuples.rs:196-229 | linking one type keeps the table valid and only appends types |
| RustqlTuples.LinkTypeFacts | rustql-common/src/tuples.rs:196-229 | linking one type only appends facts, each starting with its id |
| RustqlTuples.ExtendsFromTrans | rustql-common/src/tuples.rs:197 | fact extensions compose over successive entries |
| RustqlTuples.LinkAllSources | rustql-common/src/tuples.rs:196-229 | linking entries keeps the table valid, only appends types, and every new fact starts with one of the entries' ids |
| RustqlTuples.ExtendsFromBelow | rustql-common/src/tuples.rs:197 | facts from ids below `n` are facts about types listed before linking |
| RustqlTuples.LinkTypesSnapshot | rustql-common/src/tuples.rs:196-197 | `link_types` links a snapshot: every new fact starts with the id of a type listed before it began |
| RustqlTuples.Database.constructor | rustql-common/src/tuples.rs:77-99 | a new database has every table and both finders empty |
| RustqlTuples.Database.GetCrate | rustql-common/src/tuples.rs:101-103 | the id of the first crate with an equal identifier, none when there is none |
| RustqlTuples.Database.GetModuleInCrate | rustql-common/src/tuples.rs:105-110 | the first module recorded in the crate, whatever the name asked for |
| RustqlTuples.Database.GetCrateOfFunction | rustql-common/src/tuples.rs:112-126 | aborts exactly when the function is in no module; otherwise the crate of its first recorded module |
| RustqlTuples.Database.GetFunctionInCrate | rustql-common/src/tuples.rs:129-136 | a found function lies in the crate and has the def path; none means every function was tried without a match; an abort comes from a function in no module |
| RustqlTuples.Database.GetModuleInModule | rustql-common/src/tuples.rs:139-144 | the first recorded child of the module, whatever the name asked for |
| RustqlTuples.Database.GetType | rustql-common/src/tuples.rs:159-161 | an id exactly for a type in the finder, and on a valid table the type is listed under it |
| RustqlTuples.Database.SearchModule | rustql-common/src/tuples.rs:167-172 | the id of a module with the name, none exactly when no module has it |
| RustqlTuples.Database.GetModule | rustql-common/src/tuples.rs:174-176 | the module stored at position `m` |
| RustqlTuples.Database.AddTypeOrGet | rustql-common/src/tuples.rs:178-194 | updates the type list and finder as interning specifies and returns the type's id |
| RustqlTuples.Database.LinkOne | rustql-common/src/tuples.rs:198-227 | corrected, with the reference-link correction of Findings row 1: linking one entry changes the links as `LinkType` specifies, a reference linked to the type it refers to |
| RustqlTuples.Database.LinkTypes | rustql-common/src/tuples.rs:196-229 | corrected, with the reference-link correction of Findings row 1: links every type listed when it starts, in order, and changes no other table |
| RustqlTuples.FunctionInCrateSpec | rustql-common/src/tuples.rs:129-136 | the search from a position finds a match at or after it, none when every later function has a crate and does not match, and aborts only on a function in no module |
| RustqlTuples.RawReferencesSplit | rustql-common/src/tuples.rs:269-306 | `is_mutable_reference` and `is_shared_reference` split the reference types by their flag |
| RustqlTuples.RawUnsafeFunctions | rustql-common/src/tuples.rs:260-266 | `is_unsafe` holds exactly the unsafe functions, all among `functions` |
| RustqlLinkSpec.Numbered | rustql-linker/src/main.rs:34-39 | element `j` is paired with id `from + j` |
| RustqlLinkSpec.FlattenLength | rustql-linker/src/main.rs:48-61 | the global table holds every crate's elements |
| RustqlLinkSpec.FlattenAt | rustql-linker/src/main.rs:42-61 | element `j` of crate `k` gets id `j` plus the count in earlier crates and is stored at that position |
| RustqlLinkSpec.FlattenDense | rustql-linker/src/main.rs:48-61 | every element's id is its position |
| RustqlLinkSpec.PartsAt | rustql-linker/src/main.rs:41-61 | the parts of a crate list are each crate's modules, functions and structs, in order |
| RustqlLinkSpec.ModCrateFacts | rustql-linker/src/main.rs:83-85 | one `modules_in_crates` fact per module, ids from the offset, naming the crate |
| RustqlLinkSpec.FnModFacts | rustql-linker/src/main.rs:92-99 | one `functions_in_modules` fact per function, ids from the function offset, naming its containing module plus the module offset |
| RustqlLinkSpec.CrateKeys | rustql-linker/src/main.rs:67-72 | the finder key of each function of a crate is the crate identifier and its def path |
| RustqlLinkSpec.FunctionKeys | rustql-linker/src/main.rs:62-73 | one finder key per function |
| RustqlLinkSpec.FinderAsWrittenShifts | rustql-linker/src/main.rs:62-73 | as written, two functions of one crate with the same def path shift the finder's numbering for later crates |
| RustqlLinkSpec.FinderOfSpec | rustql-linker/src/main.rs:62-73 | corrected: numbered from the function offset, the finder maps exactly the functions' keys, each to the id of a function with that key |
| RustqlLinkSpec.FinderInsertSpec | rustql-linker/src/main.rs:62-73 | adding one crate's functions keeps the finder consistent with the key list |
| RustqlLinkSpec.CallsOfSpec | rustql-linker/src/main.rs:110-122 | a call the finder knows gives exactly the fact naming the callee; every call is linked or counted as a failure |
| RustqlLinkSpec.CallFactsSpec | rustql-linker/src/main.rs:108-122 | `function_calls` holds exactly the facts of the resolved calls |
| RustqlLinkSpec.CallFactsCount | rustql-linker/src/main.rs:108-122 | linked calls and failures together account for every call |
| RustqlLinkSpec.InternOwnersGrow | rustql-linker/src/main.rs:124-133 | interning for several owners keeps the table valid and only appends types and facts |
| RustqlLinkSpec.KeptRecord | rustql-linker/src/main.rs:124-133 | a recorded fact survives later interning with its id still listing the same type |
| RustqlLinkSpec.InternOwnersRecords | rustql-linker/src/main.rs:124-133 | every type of every owner gets a fact naming the owner and an id that lists it |
| RustqlLinkSpec.ArgOwners | rustql-linker/src/main.rs:124 | each function with its argument types |
| RustqlLinkSpec.ReturnOwners | rustql-linker/src/main.rs:170-179 | each function with its return type |
| RustqlLinkSpec.FieldTypes | rustql-linker/src/main.rs:158 | the types of a struct's fields, in order |
| RustqlLinkSpec.FieldOwners | rustql-linker/src/main.rs:157-168 | each struct with its field types |
| RustqlLinkSpec.StagesValid | rustql-linker/src/main.rs:124-179 | every stage keeps the type table valid, so equal types always share an id |
| RustqlLinkSpec.ArgumentTypesRecorded | rustql-linker/src/main.rs:124-133 | every argument type of every function is recorded under the function's id and the id the final table lists it under |
| RustqlLinkSpec.TypesPrefixTrans | rustql-linker/src/main.rs:124-179 | appending types composes across stages |
| RustqlLinkSpec.LaterStagesKeepTypes | rustql-linker/src/main.rs:150-179 | the later stages only append types |
| RustqlLinkSpec.SnocParts | rustql-linker/src/main.rs:41-61 | the parts and numbered elements of one more crate extend those before it |
| RustqlLinkSpec.SnocFacts | rustql-linker/src/main.rs:62-99 | the finder and module and function facts of one more crate extend those before it |
| RustqlLinkSpec.SnocFinder | rustql-linker/src/main.rs:62-73 | one more crate inserts its functions' keys numbered from the function offset |
| RustqlLinkSpec.SnocModuleCrates | rustql-linker/src/main.rs:83-85 | one more crate appends its modules' `modules_in_crates` facts |
| RustqlLinkSpec.SnocModuleParents | rustql-linker/src/main.rs:86-89 | one more crate appends its modules' `modules_in_modules` facts |
| RustqlLinkSpec.SnocFunctionModules | rustql-linker/src/main.rs:92-99 | one more crate appends its functions' `functions_in_modules` facts |
| RustqlLinkSpec.TablesSnoc | rustql-linker/src/main.rs:41-100 | placing the crates one at a time, each numbered after those before it, gives the tables of all of them |
| RustqlLinkSpec.CrateIds | rustql-linker/src/main.rs:34-39 | crates get ids 0, 1, 2, ... in reading order |
| RustqlLinkSpec.ModuleIds | rustql-linker/src/main.rs:42-54 | module `j` of crate `k` gets id `j` plus the modules of earlier crates and a `modules_in_crates` fact naming crate `k` |
| RustqlLinkSpec.ModuleCrateFactsHas | rustql-linker/src/main.rs:83-85 | every module's `modules_in_crates` fact is present |
| RustqlLinkSpec.FunctionIds | rustql-linker/src/main.rs:43-61 | function `j` of crate `k` gets id `j` plus the functions of earlier crates, and its module fact is shifted by the modules of earlier crates |
| RustqlLinkSpec.FunctionModuleFactsHas | rustql-linker/src/main.rs:92-99 | every function's `functions_in_modules` fact is present |
| RustqlLinkSpec.ParentFactsSpec | rustql-linker/src/main.rs:86-89 | a module has a `modules_in_modules` fact exactly when it has a parent, naming the parent shifted by the offset |
| RustqlLinker.AddModuleFacts | rustql-linker/src/main.rs:83-90 | appends one crate's module facts as specified and changes no unrelated table |
| RustqlLinker.AddFunctionModules | rustql-linker/src/main.rs:92-99 | appends one crate's function facts as specified |
| RustqlLinker.AddCrate | rustql-linker/src/main.rs:41-100 | corrected, with the finder-numbering correction of Findings row 2: one crate's modules, functions, structs, finder entries and facts are placed as specified |
| RustqlLinker.AddCrates | rustql-linker/src/main.rs:41-100 | corrected, with the finder-numbering correction of Findings row 2: the database holds all crates, each numbered after those before it |
| RustqlLinker.LinkFunctionCalls | rustql-linker/src/main.rs:110-122 | appends one function's resolved call facts and returns its unresolved count |
| RustqlLinker.InternArguments | rustql-linker/src/main.rs:124-133 | interns one function's argument types into `argument_types` |
| RustqlLinker.LinkCalls | rustql-linker/src/main.rs:107-138 | appends every resolved call, counts the unresolved ones and interns every argument type |
| RustqlLinker.AddFieldTypes | rustql-linker/src/main.rs:156-168 | interns every field type of every struct into `field_types` |
| RustqlLinker.AddReturnTypes | rustql-linker/src/main.rs:170-179 | interns every function's return type into `return_type` |
| RustqlLinker.ArgsPhase | rustql-linker/src/main.rs:107-138 | calls and argument types reach the argument stage, leaving the rest alone |
| RustqlLinker.LinksPhase | rustql-linker/src/main.rs:150 | corrected, with the reference-link correction of Findings row 1: the type links reach the link stage |
| RustqlLinker.FieldsPhase | rustql-linker/src/main.rs:156-168 | the field types reach the field stage |
| RustqlLinker.ReturnsPhase | rustql-linker/src/main.rs:170-179 | the return types reach the return stage |
| RustqlLinker.LinkPhase | rustql-linker/src/main.rs:107-179 | corrected, with the reference-link correction of Findings row 1: calls, argument types, type links, field and return types are all linked, with the failure count |
| RustqlLinker.PlaceCrates | rustql-linker/src/main.rs:31-100 | corrected, with the finder-numbering correction of Findings row 2: a new database holds the crates in reading order, with nothing linked |
| RustqlLinker.CreateDatabase | rustql-linker/src/main.rs:31-182 | corrected, with both corrections of Findings: the crates in reading order, placed and linked, with the count of unresolved calls |
| RustqlTuples.Database.LinkTupleElements | rustql-common/src/tuples.rs:203-209 | interns each element type and appends one `tuple` fact per element, as `InternFacts` specifies |
| RustqlAst.HasFactNamed | rustql-query/src/ast.rs:58 | holds exactly when some fact has the name |
| RustqlAst.IsRecursive | rustql-query/src/ast.rs:56-60 | a rule is recursive exactly when some body fact has the rule's own name |
| RustqlAst.GetOverlapping | rustql-query/src/ast.rs:62-66 | the overlap is no longer than this fact's arguments and holds exactly the arguments occurring in both facts |
| RustqlAst.OverlapMembers | rustql-query/src/ast.rs:63-64 | an element is in the overlap exactly when it is in both sequences |
| RustqlAst.OverlapCounts | rustql-query/src/ast.rs:63-64 | the overlap keeps every repeat of a shared argument and drops every other argument |
| RustqlAst.OverlapAppend | rustql-query/src/ast.rs:63-64 | the overlap keeps this fact's order: it distributes over concatenation |
| RustqlAst.OverlapSelf | rustql-query/src/ast.rs:63-64 | when every argument occurs in the other fact, the overlap is the whole argument list |
| RustqlAst.GetOverlappingSelf | rustql-query/src/ast.rs:62-66 | the overlap of a fact with itself is its argument list |
| RustqlEngine.GenerateNativeFacts | rustql-query/src/engine.rs:16-160 | every native relation is marked native |
| RustqlEngine.NativeFactsKeys | rustql-query/src/engine.rs:16-160 | the native table holds exactly the seventeen relation names |
| RustqlEngine.NativeFactsVariables | rustql-query/src/engine.rs:16-160 | `calls`, `function`, `in_module` and `is_struct` read fields of another name; every other native relation reads its own |
| RustqlEngine.WithDeclsSpec | rustql-query/src/engine.rs:178-190 | a relation is known when native or declared; the last declaration of a name wins, even over a native one, and is non-native |
| RustqlEngine.WithDeclsKeys | rustql-query/src/engine.rs:180-190 | the known names are the native ones and the declared ones |
| RustqlEngine.WithDeclsLast | rustql-query/src/engine.rs:180-190 | the last declaration of a name decides its entry |
| RustqlEngine.WithDeclsKept | rustql-query/src/engine.rs:180-190 | an undeclared native relation keeps its entry |
| RustqlEngine.RulesNamed | rustql-query/src/engine.rs:194-196 | never more rules than the query has |
| RustqlEngine.RulesNamedSpec | rustql-query/src/engine.rs:194-196 | keeps exactly the rules with the name |
| RustqlEngine.GroupRulesSpec | rustql-query/src/engine.rs:192-196 | a name has an entry exactly when some rule has it, listing that name's rules in query order |
| RustqlEngine.RuleNames | rustql-query/src/engine.rs:194-196 | the rules' names in query order |
| RustqlEngine.GroupList | rustql-query/src/engine.rs:198 | the groups in ascending name order, each with its rules |
| RustqlEngine.GroupNamesSpec | rustql-query/src/engine.rs:193-198 | one group per rule name, strictly ascending, none empty |
| RustqlEngine.FirstDecl | rustql-query/src/engine.rs:199-203 | the first declaration of the name, none exactly when there is no declaration of it |
| RustqlEngine.MapAllOk | rustql-query/src/engine.rs:370-379 | a map over a list succeeds exactly when every element does, with the results in order |
| RustqlEngine.MapAllErr | rustql-query/src/engine.rs:370-379 | a failing map reports its first failing element |
| RustqlEngine.MapAllStops | rustql-query/src/engine.rs:370-379 | once a prefix fails, later elements are not looked at |
| RustqlEngine.FactNames | rustql-query/src/engine.rs:359 | the names of a rule body's facts, in order |
| RustqlEngine.ResolveSpec | rustql-query/src/engine.rs:370-379 | the lookup succeeds exactly when every name is known, giving each entry; otherwise it reports the first unknown name |
| RustqlEngine.ResolveStops | rustql-query/src/engine.rs:370-379 | once a name is unknown, later names do not change the outcome |
| RustqlEngine.VariableNames | rustql-query/src/engine.rs:373 | the variable names of the relations, in order |
| RustqlEngine.DatanamesSpec | rustql-query/src/engine.rs:357-381 | the datanames exist exactly when every fact's relation is known, and are the variables of the rule's relations in ascending name order, each once |
| RustqlEngine.RuleRelationsSpec | rustql-query/src/engine.rs:359-369 | sorting and deduplicating gives a strictly ascending list of the facts' names |
| RustqlEngine.RuleArguments | rustql-query/src/engine.rs:383-423 | the relations a rule reads with their argument types, in ascending name order; an unknown relation panics |
| RustqlEngine.RuleArgumentDatanames | rustql-query/src/engine.rs:357-381 | the loop computes the specified datanames or the unknown-relation panic |
| RustqlEngine.BuildJoinTree | rustql-query/src/engine.rs:503-520 | the loop builds the specified join tree or panics as specified |
| RustqlEngine.FoldJoinsShape | rustql-query/src/engine.rs:512-518 | folding keeps the tree left-deep, appends the facts as leaves, and picks a recursive join for a fact named like the rule and a join with its negation flag otherwise |
| RustqlEngine.JoinTreeShape | rustql-query/src/engine.rs:503-520 | a tree exists exactly when the body is non-empty and does not start negated; it is left-deep with the body's facts as leaves in order |
| RustqlEngine.WithoutCounts | rustql-query/src/engine.rs:692-693 | dropping the overlap removes every occurrence of the dropped arguments and keeps the others |
| RustqlEngine.WithoutAgree | rustql-query/src/engine.rs:692-693 | dropping by two lists that agree on the arguments gives the same result |
| RustqlEngine.OverlapThenRest | rustql-query/src/engine.rs:688-696 | the overlap followed by the left fact's other arguments is a permutation of the left fact's arguments |
| RustqlEngine.JoinFactArgs | rustql-query/src/engine.rs:688-696 | a join is named `temp_fact`, starts with the overlap, and has the left arguments plus the right ones the left lacks |
| RustqlEngine.JoinFactMembers | rustql-query/src/engine.rs:688-696 | a join's arguments are those of either side |
| RustqlEngine.AntijoinFactMembers | rustql-query/src/engine.rs:767-774 | an antijoin's arguments are the left side's |
| RustqlEngine.AntijoinFactArgs | rustql-query/src/engine.rs:767-774 | an antijoin is named `temp_fact`, starts with the overlap and is a permutation of the left fact's arguments |
| RustqlEngine.InSomeAppend | rustql-query/src/engine.rs:522-569 | membership in some fact of a concatenation is membership in some fact of either part |
| RustqlEngine.TreeFactVariables | rustql-query/src/engine.rs:522-569 | without recursion, the result's arguments are exactly those of the facts not under negation |
| RustqlEngine.RecursiveRuleFact | rustql-query/src/engine.rs:543-554 | a rule whose last body fact has its own name produces its head with "()" appended |
| RustqlEngine.CompileRule | rustql-query/src/engine.rs:425-500 | computes the specified compilation of one rule or its panic |
| RustqlEngine.CompileRuleOk | rustql-query/src/engine.rs:425-463 | a rule compiles exactly when every relation it reads is known and its body is non-empty and starts positive; an unknown relation is reported first |
| RustqlEngine.CompileAllStops | rustql-query/src/engine.rs:262-264 | once a rule fails, later rules do not change the outcome |
| RustqlEngine.LoadsSpec | rustql-query/src/engine.rs:283-316 | the derived relations loaded are exactly the first rule's datanames that are known and not native |
| RustqlEngine.CompileRules | rustql-query/src/engine.rs:254-355 | the loop computes the specified group compilation |
| RustqlEngine.GroupOfSpec | rustql-query/src/engine.rs:254-355 | a group compiles exactly when it has rules and each compiles; it holds their compilations in order and the derived relations the first rule reads |
| RustqlEngine.CheckActionsSpec | rustql-query/src/engine.rs:209-229 | actions are accepted exactly when each is `for_each` or `csv`, each exporting the function named by kind and target; otherwise the first other one panics |
| RustqlEngine.CompileGroupsStops | rustql-query/src/engine.rs:198-207 | once a group fails, later groups do not change the outcome |
| RustqlEngine.CheckActionsStops | rustql-query/src/engine.rs:209-229 | once an action fails, later actions do not change the outcome |
| RustqlEngine.InsertDecls | rustql-query/src/engine.rs:178-190 | the relation table is the native one with each declaration inserted in order |
| RustqlEngine.BuildRuleMap | rustql-query/src/engine.rs:192-196 | the loop groups the rules by name |
| RustqlEngine.GroupEntry | rustql-query/src/engine.rs:198 | every group name has its rules in the map |
| RustqlEngine.CompileRuleGroups | rustql-query/src/engine.rs:198-207 | the loop over the name-ordered map compiles the groups as specified |
| RustqlEngine.CompileActions | rustql-query/src/engine.rs:209-229 | the loop over the actions computes the specified check |
| RustqlEngine.CompileQuery | rustql-query/src/engine.rs:162-233 | computes the specified compilation of the whole query |
| RustqlEngine.GroupReady | rustql-query/src/engine.rs:198-207 | a group compiles exactly when its name is declared and each of its rules compiles |
| RustqlEngine.GroupOfRule | rustql-query/src/engine.rs:193-198 | every rule of the query belongs to the group of its name |
| RustqlEngine.GroupsReadyRules | rustql-query/src/engine.rs:198-207 | if the groups compile, every rule is ready |
| RustqlEngine.RulesReadyGroups | rustql-query/src/engine.rs:198-207 | if every rule is ready, the groups compile |
| RustqlEngine.GroupsReady | rustql-query/src/engine.rs:198-207 | the groups compile exactly when every rule of the query is ready |
| RustqlEngine.CompileQueryOk | rustql-query/src/engine.rs:162-233 | a query compiles exactly when every rule's relation is declared, every rule compiles, and every action is `for_each` or `csv` |
| RustqlEngine.CompileQueryGroups | rustql-query/src/engine.rs:192-207 | a compiled query has one group per rule name in ascending order, each with the first declaration of its name and its rules' compilations in query order |
| RustqlExtractor.SplitAtEquals | rustql-extractor/src/main.rs:69 | the text before the first '=' and, when there is one, the text after it |
| RustqlExtractor.ArgValue | rustql-extractor/src/main.rs:61-80 | the loop pulling arguments from one iterator computes the specified value |
| RustqlExtractor.ArgValueFound | rustql-extractor/src/main.rs:68-79 | a found value passes the predicate and was written with or after an occurrence of the option |
| RustqlExtractor.ArgValueAbsent | rustql-extractor/src/main.rs:68-79 | without an argument naming the option there is no value |
| RustqlExtractor.ArgValueFirst | rustql-extractor/src/main.rs:68-79 | a first argument `option=value` whose value the predicate accepts wins |
| RustqlExtractor.SplitAtEqualsOf | rustql-extractor/src/main.rs:69 | the split gives the key back when the key holds no '=' |
| RustqlExtractor.ArgValueConsumes | rustql-extractor/src/main.rs:74 | a rejected `--sysroot a` value is consumed, so a following `--sysroot=b` is not read as an option |
| RustqlExtractor.Push | rustql-extractor/src/main.rs:178-180 | an absolute part replaces the path, an empty path takes the part, otherwise a '/' joins them unless the path ends in one |
| RustqlExtractor.ToolchainSysroot | rustql-extractor/src/main.rs:174-183 | a toolchain path exactly when both a home and a toolchain are known |
| RustqlExtractor.FindSysrootOrder | rustql-extractor/src/main.rs:168-195 | the sysroot comes from the first source that has one, and is missing only when every source is |
| RustqlExtractor.LastIndexOf | rustql-extractor/src/main.rs:200 | the position of the last occurrence of the character, none exactly when it does not occur |
| RustqlExtractor.FileName | rustql-extractor/src/main.rs:200 | a file name is a non-empty last component other than '.' and '..' |
| RustqlExtractor.FileStem | rustql-extractor/src/main.rs:200 | the file name before its last '.', unless that '.' starts it |
| RustqlExtractor.FileStemRustc | rustql-extractor/src/main.rs:199-200 | a path whose file name is `rustc` has stem `rustc` |
| RustqlExtractor.DropRustc | rustql-extractor/src/main.rs:197-204 | the second argument is removed exactly when its stem is `rustc` |
| RustqlExtractor.Launcher | rustql-extractor/src/main.rs:151-218 | computes the specified compiler arguments or stop |
| RustqlExtractor.LaunchSysroot | rustql-extractor/src/main.rs:206-218 | a caller giving `--sysroot` has its arguments passed on; otherwise the found sysroot is appended, or the driver stops when none is found |
| CorpusExtractorMain.FilterColor | extractor/src/main.rs:41-54 | the flag-carrying filter computes the specified survivors |
| CorpusExtractorMain.ColorFilteredMembers | extractor/src/main.rs:43-53 | the survivors are exactly the arguments that are neither `--color` nor the value right after a `--color` |
| CorpusExtractorMain.ColorFilteredIdentity | extractor/src/main.rs:43-53 | no `--color` survives, and a command line without `--color` passes unchanged |
| CorpusExtractorMain.CompilerArgs | extractor/src/main.rs:41-67 | computes the specified compiler arguments, or the missing-SYSROOT panic |
| CorpusExtractorMain.CompilerArgsShape | extractor/src/main.rs:56-67 | the program name stays first, the three MIR flags follow, then the other survivors in order, then `--sysroot` and its value |
| CorpusExtractorMain.CompilerArgsLength | extractor/src/main.rs:56-67 | with a sysroot, exactly five arguments are added to the survivors |
| ProjectExtractorData.NewCrate | project/extractor/src/data.rs:32-38 | a crate with the given name and version and no modules |
| ProjectExtractorData.FindModIds | project/extractor/src/data.rs:40-48 | the ascending indices of exactly the modules with the name |
| ProjectExtractorData.FirstChild | project/extractor/src/data.rs:54 | the first module with the name and parent, none exactly when no module has both |
| ProjectExtractorData.GetModId | project/extractor/src/data.rs:50-62 | the loop over segments computes the specified resolution |
| ProjectExtractorData.FirstChildInIds | project/extractor/src/data.rs:53-54 | searching the name's indices in order finds the first module with the name and parent |
| ProjectExtractorData.FirstChildNone | project/extractor/src/data.rs:53-58 | when none of the name's modules has the parent, there is no such module |
| ProjectExtractorData.ResolveFromLast | project/extractor/src/data.rs:50-62 | a resolved module has the path's last name, and its parent is what the rest of the path resolves to |
| ProjectExtractorData.ModIdOfSpec | project/extractor/src/data.rs:50-62 | the empty path resolves to nothing; a resolved module has the path's last name and, as parent, what the path without its last segment resolves to |
| ProjectExtractorData.NewCrateResolvesNothing | project/extractor/src/data.rs:32-62 | a new crate resolves no path |
| ProjectExtractorData.RemoveLastSegment | project/extractor/src/data.rs:80-83 | drops exactly the last segment; the empty path stays empty |
| ProjectExtractorData.ModuleSegments | project/extractor/src/data.rs:70-78 | never more segments than path elements |
| ProjectExtractorData.FromDefPathOfMod | project/extractor/src/data.rs:70-78 | the loop computes the module names of the path in order |
| ProjectExtractorData.ModuleSegmentsSpec | project/extractor/src/data.rs:72-75 | the segments are exactly the modules' names, and all of them when every element is a module |
| SynGrepVisitors.Visit | grep/syn-grep/src/visitors.rs:36-87 | visiting never decreases the expression counter |
| SynGrepVisitors.VisitAll | grep/syn-grep/src/visitors.rs:36-87 | visiting a list never decreases the expression counter |
| SynGrepVisitors.VisitSpec | grep/syn-grep/src/visitors.rs:36-87 | visiting adds exactly the node's expressions, its unsafe blocks outside functions and its reported functions, and fails exactly when the `u64` counter overflows |
| SynGrepVisitors.VisitExprSpec | grep/syn-grep/src/visitors.rs:73-86 | the same for an expression: an unsafe block is recorded with the expressions inside it |
| SynGrepVisitors.VisitFnSpec | grep/syn-grep/src/visitors.rs:37-71 | the same for a function: its blocks go into its report, and the blocks open outside it are kept |
| SynGrepVisitors.VisitAllSpec | grep/syn-grep/src/visitors.rs:36-87 | the same for a list of nodes, in order |
| SynGrepVisitors.ReportedFunctionsHaveBlocks | grep/syn-grep/src/visitors.rs:22-33 | every reported function holds at least one unsafe block |
| SynGrepVisitors.ReportedFunctionsHaveBlocksOf | grep/syn-grep/src/visitors.rs:22-33 | the same for the functions under one node |
| SynGrepVisitors.FunctionVisitor.constructor | grep/syn-grep/src/visitors.rs:14-19 | a visitor with zero expressions, no open blocks and no functions |
| SynGrepVisitors.FunctionVisitor.AfterVisitFn | grep/syn-grep/src/visitors.rs:22-33 | the open blocks become a function report when there are any, and are taken |
| SynGrepVisitors.FunctionVisitor.VisitNode | grep/syn-grep/src/visitors.rs:36-87 | succeeds exactly when the specified visit does, leaving its state |
| SynGrepVisitors.FunctionVisitor.VisitNodes | grep/syn-grep/src/visitors.rs:36-87 | succeeds exactly when the specified visit of the list does, leaving its state |
| SynGrepVisitors.AnalyseItems | grep/syn-grep/src/main.rs:91-94 | succeeds exactly when the file has at most `u64` max expressions, reporting its functions and its blocks outside functions |
| ReportUtils.CrateTypes | reports/utils.py:12 | every crate-types string names at least one crate type |
| ReportUtils.CountBuildsPerType | reports/utils.py:3-16 | the two nested loops compute the specified dictionary |
| ReportUtils.AddPiecesSpec | reports/utils.py:12-15 | the inner loop adds the count to each piece's key once per occurrence, and adds keys for exactly the new pieces |
| ReportUtils.CountBuildsSpec | reports/utils.py:10-16 | the dictionary has exactly the crate types that appear, each with the number of builds of that type |
| ReportUtils.CountBuildsAtLeast | reports/utils.py:10-16 | a crate type counts at least the builds of every string naming it |
| ReportUtils.NoCrateTypes | reports/utils.py:6-8 | builds without crate types are counted under the empty crate type |
| ReportUtils.SumValuesAdd | reports/utils.py:15 | one `+= count` raises the total by the count |
| ReportUtils.CountBuildsTotal | reports/utils.py:10-16 | the values add up to each string's count times its number of pieces, summed |
| ReportWhitelists.GetSysCrateNames | reports/whitelists.py:5-21 | a name is a system crate exactly when it is an input name ending in `_sys`, `_bindgen`, `_ffi` or `_bindings`, or one of the twelve listed crates |
| ReportWhitelists.GetSysCrateNamesMonotone | reports/whitelists.py:5-21 | more input names never lose a system crate |
| ReportWhitelists.GetSysCrateNamesIdempotent | reports/whitelists.py:5-21 | feeding the result back in gives the same set |
| ReportWhitelists.GetUncheckedFunctionNames | reports/whitelists.py:37-42 | keeps only input paths |
| ReportWhitelists.GetUncheckedFunctionNamesSpec | reports/whitelists.py:37-42 | a path is kept exactly when its text after the last `::` contains `unchecked`; that text ends the path and holds no `::` |
| ReportWhitelists.UncheckedPlainName | reports/whitelists.py:41 | a path without `::` is kept exactly when it contains `unchecked` |
| PyStrings.FirstIndex | reports/whitelists.py:41 | the first occurrence of the separator, none exactly when it does not occur |
| PyStrings.SplitOn | reports/utils.py:12 | `split` always gives at least one piece |
| PyStrings.SplitJoin | reports/utils.py:12 | joining the pieces with the separator gives the string back |
| PyStrings.SplitPiecesFree | reports/utils.py:12 | no piece contains the separator |
| PyStrings.LastSegmentSpec | reports/whitelists.py:41 | the last piece ends the string, holds no separator, and is the whole string or preceded by the separator |
| PyStrings.SplitOnSome | reports/utils.py:12 | a split cuts at the first occurrence and goes on splitting the text after it |
| PyStrings.LastSegmentSome | reports/whitelists.py:41 | the last piece is the last piece of the text after the first occurrence |
| PyStrings.SplitOnNone | reports/utils.py:12 | a string without the separator splits into itself alone |
| PyStrings.ContainsOccurs | reports/whitelists.py:41 | `in` on strings agrees with finding an occurrence |
| NameOrder.StrLessTrans | rustql-query/src/engine.rs:360-368 | the name order is transitive |
| NameOrder.StrLessTotal | rustql-query/src/engine.rs:360-368 | any two different names are ordered one way or the other |
| NameOrder.InsertNameSpec | rustql-query/src/engine.rs:359-369 | inserting a name into a strictly ascending list keeps it strictly ascending and adds exactly that name |
| NameOrder.SortedNamesSpec | rustql-query/src/engine.rs:359-369 | sorting and removing duplicates gives a strictly ascending list of exactly the names |
| NameOrder.SortedUnique | rustql-query/src/engine.rs:359-369 | a strictly ascending list is fixed by its elements, so any sort followed by dedup gives the same list |

## Left out

- Character-encoding conversion: none of the modelled files contains any.
- The compiler-driver glue is left out because it depends on compiler internals. This covers the extractor's HIR and MIR visitors, the callbacks in `rustql-extractor/src/main.rs:82-149` and `extractor/src/main.rs:20-34`, and `project/extractor/src/main.rs`.
- Sysroot discovery by running `rustc` with the argument `sysroot` is left out: the found sysroot is a parameter.
- Environment variables, the process exit code and `to_string_lossy` are left out. The command lines and the environment values the drivers read are parameters.
- Path handling is modelled with '/' separators only. Windows paths are not modelled.
- The schema file is not part of this model. The generated code is modelled for the fixed schema described above, and the `quote!`/`syn` code generation itself is left out.
- The Rust text that the rustql query compiler prints around its decisions is not modelled. The model computes the relations, groups, join trees and facts that the compiler prints.
- The datapond/datafrog engine is a foreign library. Only the least-fixpoint meaning of each rule block is modelled.
- Serde bincode and JSON `load`/`save` are left out, as are the linker's bincode `save` and `read_crates`. The crate summaries are a parameter.
- Only relations and interning tables of copy values are stored in the raw format. Their elements are modelled as their byte images, so the unsafe pointer reinterpretation is not modelled.
- Disk access is modelled as a `files` map on the loader and the storage functions. Other file I/O is left out:
  - `collect_files`;
  - CSV writers and `write_csv!`;
  - log reading: the log lines are given;
  - `print_report`;
  - `move_extracted`.
- The order of `read_dir` is a parameter.
- `remove_dir_all` in `check_compilation` is modelled as a returned list of deleted directories.
- Logging, `println!` and `eprintln!` output are left out, along with the linker's `fails` count report.
- The floating-point failure ratio of the linker is left out.
- Interned keys are `nat`. The truncation in the keys' `From<usize>` and the overflow of fixed-width counters are not modelled. `u64` overflow is modelled only where the source checks it: id `shift` and syn-grep's `checked_add`.
- Panics from `assert!`, `expect`, `unwrap` and `panic!` become `Err` or `None` results. Where a row references a missing key, indexing panics on well-formed input are excluded by `requires` on well-formedness.
- Iteration over a `HashMap` or `HashSet` has no fixed order, so outputs collected from one are sets, multisets or maps. Specifically:
  - `resolved_calls` counts in first-insertion order and then sorts by target;
  - `unsafe_reasons` keeps the first occurrence of each pair;
  - `function_size` reports a map per build and per body.
- The `size` query's terminator-only blocks are collected from a `HashMap` walk (manager/src/queries/size.rs:60-65), so they are a set. The blocks with statements keep the sorted group order.
- `unsafe_root_scopes` in `counters` records a group's root after the group succeeds. A group that fails aborts the query, so the order of insertion is not observable.
- pandas `value_counts` is modelled as a sequence of (string, count) pairs. Its ordering is not modelled. The pandas CSV loaders, `drawing.py` and the helper scripts are left out.
- syn-grep's parallel map over files, its syn parser and its CSV output are left out. The visitor runs over an abstract syntax tree of functions, unsafe blocks and expressions.
- `SchemaDecl.Scan` follows the interning chain with a `fuel` bound. A chain deeper than the fuel is reported as an error rather than followed.
- RustqlEngine.NativeFactsKeys states which relation names the native table holds, not its size.
- Unicode case rules are left out: `DslQueries.ToLower` lowers ASCII letters only.
- LinkOne: links a reference to the type it refers to, as corrected in Findings row 1. rustql-common/src/tuples.rs:199-202 as written links it to itself; `RustqlTuples.ReferenceLinkedToItself` models that.
- LinkTypes: runs the corrected `LinkOne`, so it is not `link_types` as written (rustql-common/src/tuples.rs:196-229); see Findings row 1.
- LinksPhase: reaches the link stage with the corrected type links of Findings row 1, not those of rustql-linker/src/main.rs:150 as written.
- LinkPhase: includes the corrected type links of Findings row 1.
- AddCrate: numbers the finder's function ids from the functions placed so far, as corrected in Findings row 2. rustql-linker/src/main.rs:62-73 as written numbers them from `function_finder.len()`; `RustqlLinkSpec.FinderAsWrittenShifts` models that.
- AddCrates: builds the corrected finder of Findings row 2.
- PlaceCrates: places the crates with the corrected finder numbering of Findings row 2.
- CreateDatabase: the whole linker pipeline with both corrections of Findings, not rustql-linker/src/main.rs:31-182 as written.

## Findings

| source | as written | input that shows it | evidently intended | confidence | as-written member | corrected member |
|---|---|---|---|---|---|---|
| rustql-common/src/tuples.rs:199-202 | `link_types` interns the reference type itself, so each reference is linked to its own id | a table holding the one type (0, `Reference(Native("u8"), false)`) gets the fact (0, 0) | a reference is linked to the id of the type it refers to, interning that type when it is new | not executed | RustqlTuples.ReferenceLinkedToItself | RustqlTuples.LinkTypeReference |
| rustql-linker/src/main.rs:62-73 | function ids for the finder are counted from `function_finder.len()`, which falls behind `functions.len()` when a crate has two functions with the same definition path | crates `[Crate(a, [], [], [f, f]), Crate(b, [], [], [g])]`: `g` is function 2 but is found as function 1 | the finder numbers each function like `functions`, from `functions.len()` | not executed | RustqlLinkSpec.FinderAsWrittenShifts | RustqlLinkSpec.FinderOfSpec |
