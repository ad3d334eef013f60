# Floyd core, modelled in Dafny

This project models the type and value machinery of the Floyd language
implementation, together with several of its self-contained front-end string
routines, and proves what the C++ code promises about them:

- **The type interner** (`type_interner_t`). It is an append-only table of
  structurally distinct `typeid_t` values. Fifteen reserved slots come first,
  numbered like the base types. Every later entry is a composite whose
  component types were interned before it. It is modelled as a class holding
  the table as a sequence, and its table invariant is proved to be preserved.
- **The structural type variant `typeid_t`**, one closed datatype shared by
  every module. It comes with:
  - its invariant, the resolved-ness check and structural equality;
  - compact-string printing and struct member lookup;
  - the counting of dynamic (`any`) function arguments;
  - the JSON encoder and decoder for types, with their resolved and
    unresolved tag characters.
- **The value converter** between the tree value (`value_t`) and the bytecode
  value (`bc_value_t`). Vectors and dicts use either packed inplace elements
  or one handle per element. The choice of layout is a parameter.
- **The runtime collection operations** the LLVM back end calls. They work on
  flat element arrays and C strings and return fresh arrays:
  - concatenate, subset, replace, push_back and update;
  - find, filter, map and reduce;
  - dict store, erase, lookup and exists;
  - the comparison-operator mapping.
- **Smaller sequential cores:**
  - AST node location wrapping and unwrapping;
  - the symbol table of a lexical scope;
  - command-line tokenising and option decoding;
  - the precedence-climbing expression parser of the early prototype;
  - the classification of prefix-less statements (assignment, binding,
    expression statement, function definition);
  - the operator and precedence tables;
  - the legacy tagged dynamic value `FloydDT`, with its signature hash.

The modelled files come from different revisions and spell the base types
in two ways. `dev/floyd_speak/floyd_syntax.h` and
`dev/floyd_speak/floyd_basics/ast_typeid.cpp` use `k_internal_undefined`,
`k_json_value` and `k_internal_unresolved_type_identifier`.
`dev/floyd_speak/floyd_basics/ast_typeid_helpers.cpp`,
`compiler/floyd_basics/type_interner.cpp` and
`compiler/bytecode_interpreter/bytecode_helpers.cpp` use `k_undefined`,
`k_json` and `k_unresolved`. The shared datatype `FloydTypes.Type` maps both
spellings to `Undefined`, `Json` and `Unresolved`. Likewise `k_any` (used by
`ast_typeid.cpp` and `type_interner.cpp`) and `k_internal_dynamic` (declared
in `floyd_syntax.h`) both become `Any`. Its base-type order, and so the
interner's slot numbering, follows the constructor of `type_interner_t`.

Errors the C++ code throws are modelled as `Result.Failure`, so every
thrown error is an ordinary result. Preconditions the code only asserts on
entry become `requires` clauses: for example the argument types of
`push_back`, the well-formed signature text of `MakeSignature`, the non-null
function of `MakeFunction`, and the non-empty array of `unpack_loc`. A few
asserts reached in the middle of a computation are modelled as `Failure`
instead: the unsupported inplace-dict layout of `value_to_bc`, a bytecode
payload that does not match its type, and the `[` lookup of the prototype
expression parser.

## Model

| member | source | states |
|---|---|---|
| TypeInterner.InitialTable | compiler/floyd_basics/type_interner.cpp:24-46 | the constructed table has 15 entries: slot j holds the scalar whose base-type number is j, slot 13 the empty unresolved identifier, and slots 0, 9-12 and 14 undefined placeholders |
| TypeInterner.TypeInterner.constructor | compiler/floyd_basics/type_interner.cpp:24-48 | a new interner holds exactly the initial table, and that table satisfies the interner invariant |
| TypeInterner.InitialTableValid | compiler/floyd_basics/type_interner.cpp:24-48 | the initial table satisfies the table invariant that the constructor asserts |
| TypeInterner.ReservedEntryIndex | compiler/floyd_basics/type_interner.cpp:24-45 | a defined, resolved scalar sits in reserved slot j only when j is its base-type number |
| TypeInterner.CheckInvariantHolds | compiler/floyd_basics/type_interner.cpp:50-74 | every valid table passes `check_invariant`: fixed scalars at their base-type slots, undefined placeholders in the struct, vector, dict and function slots, and the empty unresolved identifier at slot 13 |
| TypeInterner.ValidReserved | compiler/floyd_basics/type_interner.cpp:24-46 | a valid table starts with the 15 reserved slots |
| TypeInterner.ValidPrefix | compiler/floyd_basics/type_interner.cpp:143-177 | every prefix of at least 15 entries of a valid table is valid: the table is built by appends only |
| TypeInterner.InternableComponents | compiler/floyd_basics/type_interner.cpp:143-185 | a composite can be interned exactly when each of its component types can |
| TypeInterner.EntryInternable | compiler/floyd_basics/type_interner.cpp:196-205 | every entry of a valid table can be interned, so finding an existing entry never throws |
| TypeInterner.ChildrenBeforeParent | compiler/floyd_basics/type_interner.cpp:143-177 | every entry after the reserved slots is a composite, and each of its components is found at a smaller index |
| TypeInterner.EntriesDistinct | compiler/floyd_basics/type_interner.cpp:196-210 | no entry after the reserved slots equals an earlier entry: the table deduplicates |
| TypeInterner.IndexOf | compiler/floyd_basics/type_interner.cpp:200-203 | the position `std::find_if` finds: an entry equal to the type, with no equal entry before it |
| TypeInterner.IndexOfUnique | compiler/floyd_basics/type_interner.cpp:200-203 | a position holding the type with no earlier equal entry is exactly the first-match position |
| TypeInterner.IndexOfPrefix | compiler/floyd_basics/type_interner.cpp:143-177 | appending entries never changes where an existing type is found |
| TypeInterner.HandleContents | compiler/floyd_basics/type_interner.cpp:77-94 | a handle records the type's base type; vector and dict handles also record the base type of the element or value type; composites keep the lookup index |
| TypeInterner.ScalarsAtReservedSlots | compiler/floyd_basics/type_interner.cpp:196-205 | in a valid table every internable scalar is first found at the slot numbered by its base type, so its handle is the fixed built-in handle |
| TypeInterner.BuiltinHandles | compiler/floyd_basics/type_interner.cpp:237-251 | on a fresh interner every built-in type, the empty unresolved identifier included, gets the fixed handle numbered by its base type |
| TypeInterner.AppendKeepsValid | compiler/floyd_basics/type_interner.cpp:143-177 | appending a new internable composite whose components are present keeps the table valid and places it at the old size |
| TypeInterner.ComponentGrowth | compiler/floyd_basics/type_interner.cpp:143-177 | interning a component of `t` adds only types occurring in `t`, and never `t` itself |
| TypeInterner.TypeInterner.FindFirst | compiler/floyd_basics/type_interner.cpp:200-203 | the linear search returns -1 exactly when the type is absent, and otherwise its first-match index |
| TypeInterner.TypeInterner.InternType | compiler/floyd_basics/type_interner.cpp:196-210 | keeps the invariant and grows the table only by types occurring in the argument; succeeds exactly when the type can be interned; the handle is that of the type's first entry; a type already present leaves the table unchanged; a new type ends up as the last entry |
| TypeInterner.TypeInterner.MakeNewITypeRecursive | compiler/floyd_basics/type_interner.cpp:96-192 | interns every component first, then appends the type: on success the table grew and the type is its last entry, with the handle of index size-1; an unresolved identifier fails; a scalar cannot reach this path |
| TypeInterner.TypeInterner.InternComponents | compiler/floyd_basics/type_interner.cpp:143-177 | interns the components in order and stops at the first failure; on success every component is in the table and the type itself is not |
| TypeInterner.TypeInterner.LookupIType | compiler/floyd_basics/type_interner.cpp:213-224 | never changes the table; fails exactly when the type was never interned; otherwise returns the handle of the type's first entry |
| FloydTypes.BaseTypeIndex | compiler/floyd_basics/type_interner.cpp:24-45 | base-type numbers lie below 14, in the order in which the interner reserves its slots |
| FloydTypes.Components | compiler/floyd_basics/type_interner.cpp:143-177 | only composites have components: struct member types in order, the vector element, the dict value, or every function part |
| FloydTypes.NotInOwnComponent | compiler/floyd_basics/type_interner.cpp:143-150 | a type never occurs inside one of its own components, so self-referential struct types do not exist in the model |
| AstTypeid.FunctionInvariantShape | dev/floyd_speak/floyd_basics/ast_typeid.cpp:73-83 | a valid function type has at least one part, and a return type of `any` requires a dynamic-return rule other than none |
| AstTypeid.InvariantHereditary | dev/floyd_speak/floyd_basics/ast_typeid.cpp:58-87 | every type nested inside a valid type is valid too |
| AstTypeid.MemberAndStructEquality | dev/floyd_speak/floyd_basics/ast_typeid.cpp:611-616 | members compare equal exactly when type and name are equal, and struct definitions (lines 546-551) exactly when their member lists are equal |
| AstTypeid.TypeEqualsIsStructural | dev/floyd_speak/floyd_basics/ast_typeid.cpp:344-380 | type comparison holds exactly for structurally equal trees |
| AstTypeid.TypeEqualsExamples | dev/floyd_speak/floyd_basics/ast_typeid.cpp:344-358 | vector<int> equals vector<int>, differs from dict<int> and from vector<string>, and a copied function type equals the original |
| AstTypeid.AllTypesResolvedIff | dev/floyd_speak/floyd_basics/ast_typeid.cpp:632-639 | the early-exit loop over a list is true exactly when every element is resolved |
| AstTypeid.StructTypesResolvedIff | dev/floyd_speak/floyd_basics/ast_typeid.cpp:553-561 | a struct definition is resolved exactly when every member type is |
| AstTypeid.CompositeResolvedIff | dev/floyd_speak/floyd_basics/ast_typeid.cpp:675-686 | a composite is resolved exactly when each of its component types is |
| AstTypeid.CheckTypesResolvedMeansNoUnresolved | dev/floyd_speak/floyd_basics/ast_typeid.cpp:641-692 | a type is resolved exactly when no undefined type and no unresolved identifier occurs anywhere in its tree |
| AstTypeid.CompactStringKind | dev/floyd_speak/floyd_basics/ast_typeid.cpp:388-429 | the kind of every type can be read back from the start of its compact string alone: `•` for unresolved identifiers, `[string:` for dicts, any other `[` for vectors, `function ` for functions, `struct {` for structs, anything else for a scalar base type |
| AstTypeid.NoCompactStringStartsWithStringColon | dev/floyd_speak/floyd_basics/ast_typeid.cpp:388-429 | no type prints starting with `string:`, so a vector's compact string never looks like a dict's |
| AstTypeid.ToCompactString | dev/floyd_speak/floyd_basics/ast_typeid.cpp:564-571 | the accumulating loop yields `struct {`, then `T name;` for each member in order, then `}` |
| AstTypeid.StructCompactStringExample | dev/floyd_speak/floyd_basics/ast_typeid.cpp:462-472 | the struct with members `int a` and `double b` prints as `struct {int a;double b;}` |
| AstTypeid.FindStructMemberIndex | dev/floyd_speak/floyd_basics/ast_typeid.cpp:574-585 | returns the index of the first member with the name, or -1 exactly when no member has it |
| AstTypeid.GetMemberTypes | dev/floyd_speak/floyd_basics/ast_typeid.cpp:619-625 | one type per member, in member order |
| AstTypeid.AnyCountPositive | dev/floyd_speak/floyd_basics/ast_typeid.cpp:709-714 | the count of `any` arguments is positive exactly when some argument is `any` |
| AstTypeid.CountFunctionDynamicArgs | dev/floyd_speak/floyd_basics/ast_typeid.cpp:695-703 | the counter loop returns the number of `any` arguments |
| AstTypeid.IsDynamicFunction | dev/floyd_speak/floyd_basics/ast_typeid.cpp:704-714 | a function type is dynamic exactly when one of its arguments (not its return type) is `any` |
| TypeidJson.StripResolveTag | dev/floyd_speak/floyd_basics/ast_typeid_helpers.cpp:93-105 | removes exactly one leading `^` or `#` and otherwise returns the input; the input must be longer than one character |
| TypeidJson.StripResolveTagInverse | dev/floyd_speak/floyd_basics/ast_typeid_helpers.cpp:93-105 | tagging a non-empty name with either tag and stripping it gives the name back |
| TypeidJson.ScalarEncoding | dev/floyd_speak/floyd_basics/ast_typeid_helpers.cpp:38-54 | a scalar encodes as its base-type name, prefixed with `^` only under resolve-state tags, and that encoding decodes back to the scalar |
| TypeidJson.UnknownKeywordFails | dev/floyd_speak/floyd_basics/ast_typeid_helpers.cpp:113-147 | a `^`-tagged string that names no scalar keyword is rejected |
| TypeidJson.UnresolvedTagDecodes | dev/floyd_speak/floyd_basics/ast_typeid_helpers.cpp:149-152 | a `#`-tagged string decodes to the unresolved identifier after the tag |
| TypeidJson.FunctionPurityMustBeBool | dev/floyd_speak/floyd_basics/ast_typeid_helpers.cpp:185-195 | a `func` array whose fourth element is not a JSON boolean is rejected |
| TypeidJson.RoundTrip | dev/floyd_speak/floyd_basics/ast_typeid_helpers.cpp:107-208 | decoding the resolve-state encoding of any valid type that JSON represents gives the type back: the two directions mirror each other case by case |
| TypeidJson.StructRoundTrip | dev/floyd_speak/floyd_basics/ast_typeid_helpers.cpp:170-176 | a struct round-trips when its member list does |
| TypeidJson.FunctionRoundTrip | dev/floyd_speak/floyd_basics/ast_typeid_helpers.cpp:185-195 | a function type without a dynamic-return rule round-trips when its return type and argument list do |
| TypeidJson.FunctionTagSelects | dev/floyd_speak/floyd_basics/ast_typeid_helpers.cpp:185 | an array headed by `func` is decoded as a function type |
| TypeidJson.FunctionArrayDecodes | dev/floyd_speak/floyd_basics/ast_typeid_helpers.cpp:186-194 | return type, argument array and boolean purity decode to the function type they describe |
| TypeidJson.TypesRoundTrip | dev/floyd_speak/floyd_basics/ast_typeid_helpers.cpp:212-225 | `typeids_from_json_array` inverts `typeids_to_json_array` |
| TypeidJson.MembersRoundTrip | dev/floyd_speak/floyd_basics/ast_typeid_helpers.cpp:229-254 | `members_from_json` inverts `members_to_json`: count, order, names and types survive |
| TypeidJson.EncodeTypes | dev/floyd_speak/floyd_basics/ast_typeid_helpers.cpp:212-218 | one JSON element per type |
| TypeidJson.EncodeMembers | dev/floyd_speak/floyd_basics/ast_typeid_helpers.cpp:229-239 | one JSON object per member |
| TypeidJson.TypeidsToJsonArray | dev/floyd_speak/floyd_basics/ast_typeid_helpers.cpp:212-218 | the push_back loop builds the resolve-state encoding of each type, in order |
| TypeidJson.MembersToJson | dev/floyd_speak/floyd_basics/ast_typeid_helpers.cpp:229-239 | the push_back loop builds one `{"type", "name"}` object per member, in order |
| TypeidJson.TypeidsFromJsonArray | dev/floyd_speak/floyd_basics/ast_typeid_helpers.cpp:219-225 | the loop decodes each element in order and fails at the first element that fails |
| TypeidJson.MembersFromJson | dev/floyd_speak/floyd_basics/ast_typeid_helpers.cpp:241-254 | the loop decodes each member object in order and fails at the first that fails |
| BytecodeHelpers.ValueToBc | compiler/bytecode_interpreter/bytecode_helpers.cpp:116-203 | a successful conversion keeps the value's type, in both the as-written and the corrected encoder |
| BytecodeHelpers.InplaceVectorBody | compiler/bytecode_interpreter/bytecode_helpers.cpp:159-166 | as written (line 164 drops the vector `push_back` returns) the body holds no element; corrected, it holds each element's inplace payload in order and fails exactly when one has none |
| BytecodeHelpers.ValuesToBcs | compiler/bytecode_interpreter/bytecode_helpers.cpp:23-29 | succeeds exactly when every element converts, and then holds each element's conversion at its own position |
| BytecodeHelpers.ValuesToBcsLoop | compiler/bytecode_interpreter/bytecode_helpers.cpp:23-29 | the push_back loop computes the element-wise conversion, stopping at the first failure |
| BytecodeHelpers.ValuesToBcsFirstFailure | compiler/bytecode_interpreter/bytecode_helpers.cpp:25-27 | the error of the whole conversion is the error of the first element that fails |
| BytecodeHelpers.ValuesToBcsUnique | compiler/bytecode_interpreter/bytecode_helpers.cpp:23-29 | a sequence whose elements are each the conversion of the input's elements is the converted sequence |
| BytecodeHelpers.InplaceToValue | compiler/bytecode_interpreter/bytecode_helpers.cpp:79-81 | decoding an inplace vector element gives a value of the element type |
| BytecodeHelpers.BcToValue | compiler/bytecode_interpreter/bytecode_helpers.cpp:31-114 | a successful decode has exactly the type the bytecode value carries, and its collections are homogeneous |
| BytecodeHelpers.RoundTrip | compiler/bytecode_interpreter/bytecode_helpers.cpp:31-203 | `bc_to_value(value_to_bc(v)) == v` with the corrected encoder, for every homogeneous value that converts and any layout policy |
| BytecodeHelpers.StructRoundTrip | compiler/bytecode_interpreter/bytecode_helpers.cpp:64-73 | a struct body decodes to the struct of its decoded members |
| BytecodeHelpers.VectorRoundTrip | compiler/bytecode_interpreter/bytecode_helpers.cpp:74-90 | with the corrected encoder, an encoded vector decodes back element by element in either layout |
| BytecodeHelpers.DictRoundTrip | compiler/bytecode_interpreter/bytecode_helpers.cpp:91-106 | an encoded dict decodes back key by key |
| BytecodeHelpers.ScalarsConvert | compiler/bytecode_interpreter/bytecode_helpers.cpp:120-150 | every non-collection value converts, keeps its type, and is external exactly for strings, JSON and typeids |
| BytecodeHelpers.StructMembersInOrder | compiler/bytecode_interpreter/bytecode_helpers.cpp:151-153 | struct conversion succeeds iff every member converts, and both directions keep member count and order |
| BytecodeHelpers.VectorLayout | compiler/bytecode_interpreter/bytecode_helpers.cpp:155-178 | the layout policy alone picks inplace or external elements; external elements are one handle per element in order; inplace elements number as many as the vector's when corrected and none as written |
| BytecodeHelpers.DictKeysKept | compiler/bytecode_interpreter/bytecode_helpers.cpp:179-195 | encoding and decoding a dict keep its key set |
| BytecodeHelpers.InplaceVectorAsWrittenComesBackEmpty | compiler/bytecode_interpreter/bytecode_helpers.cpp:159-166 | as written, a vector whose layout is inplace elements decodes back to the empty vector, whatever it held |
| BytecodeHelpers.InplaceVectorAsWrittenLosesElements | compiler/bytecode_interpreter/bytecode_helpers.cpp:159-166 | `[1]` of ints under an inplace layout comes back as `[]` as written and as `[1]` corrected |
| BytecodeHelpers.InplaceDictUnsupported | compiler/bytecode_interpreter/bytecode_helpers.cpp:186-188 | encoding a dict whose layout is inplace values fails |
| BytecodeHelpers.UnsupportedBaseTypeFails | compiler/bytecode_interpreter/bytecode_helpers.cpp:110-113 | a type with no value form (an unresolved identifier) throws |
| SymbolTables.FirstIndex | dev/floyd_speak/floyd_ast/statement.cpp:46-53 | -1 exactly when no entry has the name, otherwise the position of the first entry with it |
| SymbolTables.Find | dev/floyd_speak/floyd_ast/statement.cpp:46-53 | nothing is found exactly when no entry has the name |
| SymbolTables.FindAfterAppend | dev/floyd_speak/floyd_ast/statement.cpp:33-53 | appending never changes what an existing name finds, and a new name finds the appended symbol |
| SymbolTables.FirstIndexUnique | dev/floyd_speak/floyd_ast/statement.cpp:46-53 | the first-match position is the unique position with the name and no earlier entry of that name |
| SymbolTables.SymbolTable.constructor | dev/floyd_speak/floyd_ast/statement.cpp:33-44 | a new table is empty |
| SymbolTables.SymbolTable.AddConstantLiteral | dev/floyd_speak/floyd_ast/statement.cpp:33-37 | the table gains exactly one entry at its end, and the returned index is where it is |
| SymbolTables.SymbolTable.AddTemp | dev/floyd_speak/floyd_ast/statement.cpp:40-44 | the table gains exactly one temporary entry at its end, and the returned index is where it is |
| SymbolTables.SymbolTable.FindSymbol | dev/floyd_speak/floyd_ast/statement.cpp:46-53 | the front-to-back search returns the first entry with the name, or null |
| SymbolTables.SymbolTable.FindSymbolRequired | dev/floyd_speak/floyd_ast/statement.cpp:54-63 | throws exactly when the name is missing, and otherwise returns what `find_symbol` finds |
| SymbolTables.CheckTypesResolvedAll | dev/floyd_speak/floyd_ast/statement.cpp:69-76 | true exactly when every statement is resolved |
| AstJson.MakeAstNode | dev/floyd/floyd_ast/ast_json.cpp:19-31 | the node is the opcode then the parameters, with a leading number exactly when there is a location |
| AstJson.MakeStatement1 | dev/floyd/floyd_ast/ast_json.cpp:39-41 | a one-parameter node, which unpacks to its location and the node without it |
| AstJson.MakeStatement2 | dev/floyd/floyd_ast/ast_json.cpp:42-44 | a two-parameter node, which unpacks to its location and the node without it |
| AstJson.MakeExpression1 | dev/floyd/floyd_ast/ast_json.cpp:50-52 | a one-parameter node, which unpacks to its location and the node without it |
| AstJson.MakeExpression2 | dev/floyd/floyd_ast/ast_json.cpp:54-56 | a two-parameter node, which unpacks to its location and the node without it |
| AstJson.MakeAstNodeExample | dev/floyd/floyd_ast/ast_json.cpp:33-37 | a node at offset 1234 with no parameters is `[1234, "def-struct"]` |
| AstJson.UnpackLoc | dev/floyd/floyd_ast/ast_json.cpp:104-120 | a leading number is the location and is removed from the node; a node without one is returned unchanged, with no location |
| AstJson.UnpackLoc2 | dev/floyd/floyd_ast/ast_json.cpp:122-133 | there is a location exactly when the node starts with a number |
| AstJson.UnpackLocRoundTrip | dev/floyd/floyd_ast/ast_json.cpp:19-120 | unpacking a node made with a location gives back the location and the node made without one |
| AstJson.PackUnpackedLoc | dev/floyd/floyd_ast/ast_json.cpp:19-120 | putting an unpacked location back in front rebuilds the original node |
| AstJson.UnpackLoc2Agrees | dev/floyd/floyd_ast/ast_json.cpp:104-133 | `unpack_loc2` returns the same location as `unpack_loc` |
| RuntimeValues.CStr | dev/floyd_speak/llvm_pipeline/floyd_llvm_runtime.cpp:487 | what `strlen` sees: a NUL-free prefix of the buffer that stops at a NUL or at the end |
| RuntimeValues.CStrOfTerminated | dev/floyd_speak/llvm_pipeline/floyd_llvm_runtime.cpp:487-490 | a NUL-free string written with its terminator reads back as itself, whatever follows |
| RuntimeValues.CharOf | dev/floyd_speak/llvm_pipeline/floyd_llvm_runtime.cpp:1314 | `(char)i` is congruent to `i` modulo 256 |
| RuntimeValues.OverwriteFits | dev/floyd_speak/llvm_pipeline/floyd_llvm_runtime.cpp:63-67 | a copy that fits replaces exactly the destination range and keeps the rest |
| RuntimeValues.CopyElements | dev/floyd_speak/llvm_pipeline/floyd_llvm_runtime.cpp:63-67 | the destination array afterwards is the old contents with the copied range written at the destination offset, nothing else changed |
| RuntimeValues.DictBody.constructor | dev/floyd_speak/llvm_pipeline/floyd_llvm_runtime.cpp:664-668 | a dict body holds exactly the given entries |
| LlvmRuntime.CompareOp | dev/floyd_speak/llvm_pipeline/floyd_llvm_runtime.cpp:440-463 | only the six comparison codes succeed, and each answers 0 or 1 |
| LlvmRuntime.CompareOpDecides | dev/floyd_speak/llvm_pipeline/floyd_llvm_runtime.cpp:440-463 | each comparison code answers 1 exactly when its relation holds of the three-way result |
| LlvmRuntime.Strcmp | dev/floyd_speak/llvm_pipeline/floyd_llvm_runtime.cpp:438 | the three-way comparison is 0 exactly when the strings are equal |
| LlvmRuntime.StrcmpAntisymmetric | dev/floyd_speak/llvm_pipeline/floyd_llvm_runtime.cpp:438 | swapping the operands negates the comparison |
| LlvmRuntime.CompareStringsMeaning | dev/floyd_speak/llvm_pipeline/floyd_llvm_runtime.cpp:428-464 | string `==` and `!=` decide equality of contents, and `<` is `>` with the operands swapped |
| LlvmRuntime.ConcatStrings | dev/floyd_speak/llvm_pipeline/floyd_llvm_runtime.cpp:481-492 | a fresh buffer holding the left string, the right string and a NUL, which reads back as the concatenation |
| LlvmRuntime.ConcatVectors | dev/floyd_speak/llvm_pipeline/floyd_llvm_runtime.cpp:576-591 | a fresh array holding the left elements then the right ones |
| LlvmRuntime.StoreDict | dev/floyd_speak/llvm_pipeline/floyd_llvm_runtime.cpp:658-669 | a fresh dict whose entries are the old ones with the key set to the value |
| LlvmRuntime.LookupDict | dev/floyd_speak/llvm_pipeline/floyd_llvm_runtime.cpp:691-702 | succeeds exactly when the key is present, and returns its value |
| LlvmRuntime.LookupAfterStore | dev/floyd_speak/llvm_pipeline/floyd_llvm_runtime.cpp:658-702 | after a store, the stored key gives the stored value and every other key gives what it gave before |
| LlvmRuntime.Erase | dev/floyd_speak/llvm_pipeline/floyd_llvm_runtime.cpp:1032-1052 | on a dict, a fresh body with exactly the key removed; any other collection throws |
| LlvmRuntime.ExistsMatchesLookup | dev/floyd_speak/llvm_pipeline/floyd_llvm_runtime.cpp:1054-1070 | `exists` answers 1 exactly when `lookup_dict` would find the key |
| LlvmRuntime.ExistsAfterEraseAndStore | dev/floyd_speak/llvm_pipeline/floyd_llvm_runtime.cpp:1032-1070 | an erased key no longer exists, a stored one does, and other keys keep their answer |
| LlvmRuntime.FilterSpec | dev/floyd_speak/llvm_pipeline/floyd_llvm_runtime.cpp:1080-1116 | the filtered vector is never longer than the input |
| LlvmRuntime.FilterMembership | dev/floyd_speak/llvm_pipeline/floyd_llvm_runtime.cpp:1080-1116 | an element is in the result exactly when it is in the input and the callback keeps it |
| LlvmRuntime.FilterKeepAll | dev/floyd_speak/llvm_pipeline/floyd_llvm_runtime.cpp:1080-1116 | a callback that keeps everything returns the input unchanged |
| LlvmRuntime.Filter | dev/floyd_speak/llvm_pipeline/floyd_llvm_runtime.cpp:1080-1116 | a fresh vector of the kept elements, in their order |
| LlvmRuntime.MapSpec | dev/floyd_speak/llvm_pipeline/floyd_llvm_runtime.cpp:1228-1264 | same length, and each position holds the callback's answer for the input there |
| LlvmRuntime.MapComposes | dev/floyd_speak/llvm_pipeline/floyd_llvm_runtime.cpp:1228-1264 | mapping twice is mapping once with the composed callback |
| LlvmRuntime.Map | dev/floyd_speak/llvm_pipeline/floyd_llvm_runtime.cpp:1228-1264 | fails exactly when an argument check fails, with that check's message, and otherwise returns a fresh vector of the mapped elements |
| LlvmRuntime.ReduceAppend | dev/floyd_speak/llvm_pipeline/floyd_llvm_runtime.cpp:1350-1387 | reducing a concatenation continues from the reduction of the first part |
| LlvmRuntime.Reduce | dev/floyd_speak/llvm_pipeline/floyd_llvm_runtime.cpp:1350-1387 | fails exactly on a non-vector, a non-function or a callback without two arguments, and otherwise is the left fold from the initial value |
| LlvmRuntime.FindFrom | dev/floyd_speak/llvm_pipeline/floyd_llvm_runtime.cpp:1121-1131 | -1 or a position at or after the start where the needle occurs, with no occurrence in between |
| LlvmRuntime.FindString | dev/floyd_speak/llvm_pipeline/floyd_llvm_runtime.cpp:1121-1131 | -1 or the first position where the needle occurs, and there is none earlier |
| LlvmRuntime.FindStringEdges | dev/floyd_speak/llvm_pipeline/floyd_llvm_runtime.cpp:1121-1131 | the empty string and the string itself are found at 0 |
| LlvmRuntime.FindStringAfterPrefix | dev/floyd_speak/llvm_pipeline/floyd_llvm_runtime.cpp:1121-1131 | a string not occurring earlier is found at the join of a concatenation |
| LlvmRuntime.Find | dev/floyd_speak/llvm_pipeline/floyd_llvm_runtime.cpp:1133-1167 | the string search on strings, the first equal element or -1 on vectors, each argument-type mismatch's error, and a throw on other collections |
| LlvmRuntime.PushBack | dev/floyd_speak/llvm_pipeline/floyd_llvm_runtime.cpp:1301-1337 | a fresh string with `(char)value` added or a fresh vector with the element added; other collections throw |
| LlvmRuntime.PushBackString | dev/floyd_speak/llvm_pipeline/floyd_llvm_runtime.cpp:1306-1318 | the pushed character reads back after the string, unless it is NUL, which ends the string where it was |
| LlvmRuntime.ClampEnd | dev/floyd_speak/llvm_pipeline/floyd_llvm_runtime.cpp:1436 | the end is capped at the length |
| LlvmRuntime.ClampStart | dev/floyd_speak/llvm_pipeline/floyd_llvm_runtime.cpp:1437 | the start is capped at the capped end |
| LlvmRuntime.Slice | dev/floyd_speak/llvm_pipeline/floyd_llvm_runtime.cpp:1510-1551 | a range is never longer than the collection |
| LlvmRuntime.SpliceOwnSlice | dev/floyd_speak/llvm_pipeline/floyd_llvm_runtime.cpp:1394-1454 | replacing a range with its own contents changes nothing |
| LlvmRuntime.SliceOfSplice | dev/floyd_speak/llvm_pipeline/floyd_llvm_runtime.cpp:1394-1454 | after replacement the replacement sits at the clamped start, the prefix is kept, and the length changes by the replacement less the range |
| LlvmRuntime.ReplaceString | dev/floyd_speak/llvm_pipeline/floyd_llvm_runtime.cpp:1394-1408 | a fresh buffer holding the spliced string and a NUL, which reads back as the spliced string |
| LlvmRuntime.ReplaceVectorAsWritten | dev/floyd_speak/llvm_pipeline/floyd_llvm_runtime.cpp:1444-1447 | the vector built as written has the length of the intended splice |
| LlvmRuntime.ReplaceVectorAsWrittenMisplaces | dev/floyd_speak/llvm_pipeline/floyd_llvm_runtime.cpp:1446 | for `[1, 2, 3]`, position 2 and `[9]` the as-written copy differs from the intended `[1, 2, 9, 3]` |
| LlvmRuntime.ReplaceVector | dev/floyd_speak/llvm_pipeline/floyd_llvm_runtime.cpp:1434-1449 | a fresh vector that is the input with its clamped range replaced |
| LlvmRuntime.ThreeCopies | dev/floyd_speak/llvm_pipeline/floyd_llvm_runtime.cpp:1445-1447 | three copies one after another into a buffer of their total length give their concatenation |
| LlvmRuntime.Replace | dev/floyd_speak/llvm_pipeline/floyd_llvm_runtime.cpp:1411-1454 | each range and type check gives its own error; a string or vector otherwise gets its clamped range replaced |
| LlvmRuntime.Subset | dev/floyd_speak/llvm_pipeline/floyd_llvm_runtime.cpp:1510-1551 | negative bounds throw; a string or vector otherwise yields its clamped range, and a vector range of `INT32_MAX` elements or more throws |
| LlvmRuntime.Size | dev/floyd_speak/llvm_pipeline/floyd_llvm_runtime.cpp:1472-1508 | succeeds exactly on strings, vectors, dicts and JSON objects, arrays and strings, with a non-negative size |
| LlvmRuntime.SizeOfResults | dev/floyd_speak/llvm_pipeline/floyd_llvm_runtime.cpp:1472-1551 | concatenation adds sizes, push_back adds one, and subset and replace change size by their clamped ranges |
| LlvmRuntime.Update | dev/floyd_speak/llvm_pipeline/floyd_llvm_runtime.cpp:1599-1657 | a copy with the one position or key set, a position outside the collection or an unfitting argument type throwing |
| CommandLine.StringToArgs | compiler/target_tool/floyd_command_line_parser.cpp:141-184 | the character loop computes the splitter's answer for the whole input |
| CommandLine.SplitFromClean | compiler/target_tool/floyd_command_line_parser.cpp:149-183 | from a clean state, every argument produced is non-empty and quote-free |
| CommandLine.SplitFromSpaceFree | compiler/target_tool/floyd_command_line_parser.cpp:163-173 | without quotes in the rest of the input, no argument produced holds a space |
| CommandLine.ArgsShape | compiler/target_tool/floyd_command_line_parser.cpp:141-184 | arguments are never empty and never hold a quote, and without quotes none holds a space |
| CommandLine.SplitChunk | compiler/target_tool/floyd_command_line_parser.cpp:163-176 | a run of ordinary characters goes onto the pending argument |
| CommandLine.SplitOne | compiler/target_tool/floyd_command_line_parser.cpp:149-178 | one iteration of the loop is one step of the splitter |
| CommandLine.SplitLastWord | compiler/target_tool/floyd_command_line_parser.cpp:163-173 | a word followed by an unquoted space becomes the next argument |
| CommandLine.ArgsOneWord | compiler/target_tool/floyd_command_line_parser.cpp:190-193 | one plain word with any spaces before and after it is a single argument |
| CommandLine.ArgsTwoWords | compiler/target_tool/floyd_command_line_parser.cpp:194-210 | two plain words with any spaces before, at least one between, and any after split into exactly those two words |
| CommandLine.ArgsQuotedMiddle | compiler/target_tool/floyd_command_line_parser.cpp:212-215 | a quoted argument keeps its spaces and loses its quotes |
| CommandLine.ArgsExamples | compiler/target_tool/floyd_command_line_parser.cpp:186-215 | `""` gives no arguments, `one` gives one, and `one "two 2" three ` gives three with the quoted spaces kept |
| CommandLine.ArgsSpacingExamples | compiler/target_tool/floyd_command_line_parser.cpp:194-210 | `one two`, ` one two`, `one  two` and `one two ` each give `one` and `two` |
| CommandLine.GetOutputType | compiler/target_tool/floyd_command_line_parser.cpp:218-230 | parse tree iff `-p`, AST iff `-a` without `-p`, IR iff `-i` alone of the three, otherwise an object file |
| CommandLine.GetOptimizationLevel | compiler/target_tool/floyd_command_line_parser.cpp:242-266 | `-g` wins; without `-O` the default; `-O1`..`-O3` select their level and any other parameter throws |
| CommandLine.GetVectorBackend | compiler/target_tool/floyd_command_line_parser.cpp:267-283 | HAMT by default, C array exactly for `-vcarray`, and failure exactly for a parameter other than `hamt` or `carray` |
| CommandLine.GetDictBackend | compiler/target_tool/floyd_command_line_parser.cpp:284-300 | HAMT by default, std::map exactly for `-dcppmap`, and failure exactly for a parameter other than `hamt` or `cppmap` |
| CommandLine.GetCompilerSettings | compiler/target_tool/floyd_command_line_parser.cpp:302-308 | succeeds exactly when all three settings do, and then holds those three |
| CommandLine.DefaultSettings | compiler/target_tool/floyd_command_line_parser.cpp:242-308 | with no flags: HAMT vectors and dicts, default optimisation, object-file output |
| CommandLine.LeadingSources | compiler/target_tool/floyd_command_line_parser.cpp:319-324 | counts exactly the leading arguments that are not flags |
| CommandLine.LeadingSourcesOf | compiler/target_tool/floyd_command_line_parser.cpp:319-324 | non-flag sources in front of a flag or the end are counted exactly |
| CommandLine.CompileSpecShape | compiler/target_tool/floyd_command_line_parser.cpp:310-353 | an accepted compile line is non-flag sources, then nothing, `-o`, or `-o` and a non-flag output path, with the decoded settings |
| CommandLine.CompileSpecAccepts | compiler/target_tool/floyd_command_line_parser.cpp:310-353 | every list of non-flag sources, with or without `-o path`, is accepted with those sources and that output |
| CommandLine.ParseCompileCommandMore | compiler/target_tool/floyd_command_line_parser.cpp:310-353 | the index walk computes exactly the compile-argument decoding, errors included |
| CommandLine.ParseFloydCommandLine | compiler/target_tool/floyd_command_line_parser.cpp:357-434 | only `run`, `compile` and `bench` can fail |
| CommandLine.RunAndBenchArguments | compiler/target_tool/floyd_command_line_parser.cpp:382-422 | the first extra argument is the source and the rest its arguments; bytecode iff `-b`, tracing iff `-t` |
| CommandLine.BenchModes | compiler/target_tool/floyd_command_line_parser.cpp:410-421 | `-l` lists, no keys runs everything, and keys run the named benchmarks |
| CommandLine.UnknownSubcommandIsHelp | compiler/target_tool/floyd_command_line_parser.cpp:431-433 | an unknown subcommand gives the help command |
| ExpressionParser.SingleComparisonWidth | FloydSpeak/FloydSpeak/parser2.h:343-369 | `<` and `>` skip one character exactly in the corrected parser; as written they skip two |
| ExpressionParser.EndOfLevelSkip | FloydSpeak/FloydSpeak/parser2.h:311-369 | nothing is skipped after an operator that ends a level exactly in the corrected parser; as written one character is |
| ExpressionParser.Rest | FloydSpeak/FloydSpeak/parser2.h:126 | `rest(n)` is the suffix after `n` characters, empty when fewer remain |
| ExpressionParser.ReadRun | FloydSpeak/FloydSpeak/parser2.h:124-138 | `read_while` / `read_while_not`: the run and the rest rebuild the text, the run is all in (or out of) the set and the rest does not continue it |
| ExpressionParser.ReadRunOf | FloydSpeak/FloydSpeak/parser2.h:124-138 | a run followed by a character outside it is read as exactly that run |
| ExpressionParser.SkipWhitespace | FloydSpeak/FloydSpeak/parser2.h:113 | the result is a suffix of the text that does not start with whitespace |
| ExpressionParser.OperatorRule | FloydSpeak/FloydSpeak/parser2.h:252-384 | a rule is found only for an operator spelled at the front whose level binds more strongly than the caller's; chaining exactly for the left-associative levels |
| ExpressionParser.EvaluateSingle | FloydSpeak/FloydSpeak/parser2.h:120-196 | a string literal, number or identifier form, always consuming at least one character |
| ExpressionParser.EvaluateAfterIdentifier | FloydSpeak/FloydSpeak/parser2.h:137-190 | member access after `.`, a call after `(`, otherwise the identifier, never consuming more than the text |
| ExpressionParser.ParseArguments | FloydSpeak/FloydSpeak/parser2.h:161-184 | at least one argument, and the text left is shorter |
| ExpressionParser.EvaluateCallArguments | FloydSpeak/FloydSpeak/parser2.h:162-184 | the argument loop computes exactly the argument list, including its "Unexpected char" error |
| ExpressionParser.EvaluateAtom | FloydSpeak/FloydSpeak/parser2.h:198-236 | text that is all whitespace throws "Unexpected end of string"; otherwise the text left is shorter and starts with no whitespace |
| ExpressionParser.EvaluateOperation | FloydSpeak/FloydSpeak/parser2.h:238-393 | never lengthens the text, and when it consumes nothing it returns the left operand unchanged |
| ExpressionParser.ApplyRule | FloydSpeak/FloydSpeak/parser2.h:263-384 | each binary operator consumes at least one character |
| ExpressionParser.EvaluateConditional | FloydSpeak/FloydSpeak/parser2.h:298-312 | the conditional consumes at least one character |
| ExpressionParser.EvaluateExpression | FloydSpeak/FloydSpeak/parser2.h:395-401 | text that is all whitespace throws "Unexpected end of string"; otherwise something is consumed |
| ExpressionParser.NumberSingle | FloydSpeak/FloydSpeak/parser2.h:129-135 | a number is the maximal run of number characters |
| ExpressionParser.NumberAtom | FloydSpeak/FloydSpeak/parser2.h:129-135 | a number word is an atom of its own and the text after it is left |
| ExpressionParser.EmptyInput | FloydSpeak/FloydSpeak/parser2.h:202-205 | empty or all-whitespace input throws "Unexpected end of string" |
| ExpressionParser.ArithmeticRule | FloydSpeak/FloydSpeak/parser2.h:263-295 | an arithmetic operator is consumed exactly when the caller's level is weaker than the operator's |
| ExpressionParser.ArithmeticGrouping | FloydSpeak/FloydSpeak/parser2.h:263-295 | in `a o1 b o2 c` the second operator groups with `b` only when it binds strictly more strongly, and equal strengths group to the left |
| ExpressionParser.NegatedNumberAtom | FloydSpeak/FloydSpeak/parser2.h:209-214 | a leading `-` negates the operand that follows |
| ExpressionParser.NegationBindsTightest | FloydSpeak/FloydSpeak/parser2.h:209-214 | `-a o b` is `(not a) o b` |
| ExpressionParser.StringLiteralSingle | FloydSpeak/FloydSpeak/parser2.h:123-127 | a string literal is the text between the quotes, and what follows the closing quote is left |
| ExpressionParser.UnterminatedStringLiteral | FloydSpeak/FloydSpeak/parser2.h:123-127 | a string literal without a closing quote runs to the end of the text |
| ExpressionParser.IdentifierSingle | FloydSpeak/FloydSpeak/parser2.h:137-140 | after a name the identifier branch continues with what follows it |
| ExpressionParser.CallWithoutArguments | FloydSpeak/FloydSpeak/parser2.h:151-159 | `f()` is a call with no arguments |
| ExpressionParser.CallWithTwoArguments | FloydSpeak/FloydSpeak/parser2.h:161-184 | `f(a,b)` is a call with both arguments in order, leaving the text after `)` |
| ExpressionParser.ArgumentSeparatorRequired | FloydSpeak/FloydSpeak/parser2.h:169-178 | an argument followed by anything but `,` or `)` throws "Unexpected char" |
| ExpressionParser.ParenthesisNeedsClose | FloydSpeak/FloydSpeak/parser2.h:215-222 | a parenthesised expression is its inner expression when `)` follows and throws "Expected ')'" otherwise |
| ExpressionParser.ConditionalOfNumbers | FloydSpeak/FloydSpeak/parser2.h:298-312 | `a?b:c` is the conditional of the three operands |
| ExpressionParser.ConditionalNeedsColon | FloydSpeak/FloydSpeak/parser2.h:302-305 | `a?b` without `:` throws "Expected ':'" |
| ExpressionParser.StopsAt | FloydSpeak/FloydSpeak/parser2.h:247-250 | at `)`, `,`, `;` or `:` the operator loop returns the left operand and the text unchanged |
| ExpressionParser.StrongestConsumesNothing | FloydSpeak/FloydSpeak/parser2.h:238-393 | at `k_super_strong` no operator is consumed |
| ExpressionParser.ComparisonRule | FloydSpeak/FloydSpeak/parser2.h:315-369 | a comparison or equality operator at the front, not followed by `=`, selects its own rule |
| ExpressionParser.CorrectedComparison | FloydSpeak/FloydSpeak/parser2.h:315-369 | corrected, `a op b` parses to the comparison of both operands for all six operators, leaving the following text untouched |
| ExpressionParser.SingleComparisonAsWrittenFails | FloydSpeak/FloydSpeak/parser2.h:343-349 | as written, `a<b` with a one-character `b` throws "Unexpected end of string" |
| ExpressionParser.ParenthesisedComparisonAsWrittenFails | FloydSpeak/FloydSpeak/parser2.h:315-340 | as written, `(a==b)` throws "Expected ')'" |
| ExpressionParser.ParenthesisedComparison | FloydSpeak/FloydSpeak/parser2.h:215-222 | corrected, `(a op b)` is the comparison |
| ExpressionParser.ComparisonArgumentAsWrittenFails | FloydSpeak/FloydSpeak/parser2.h:315-340 | as written, `f(a==b)` throws "Unexpected char" |
| ExpressionParser.ComparisonArgument | FloydSpeak/FloydSpeak/parser2.h:161-184 | corrected, `f(a op b)` has the comparison as its only argument |
| FloydSyntax.PrecedenceValue | dev/floyd_speak/floyd_syntax.h:89-122 | every precedence value is at most 16 |
| FloydSyntax.PrecedenceStrictlyIncreasing | dev/floyd_speak/floyd_syntax.h:89-122 | the levels from parenthesis to super-weak bind strictly more weakly one after another, with call, lookup and member access sharing a value and super-strong equal to parenthesis |
| FloydSyntax.ChainValue | dev/floyd_speak/floyd_syntax.h:89-122 | the value of each level along the chain is the one the enumeration gives it |
| FloydSyntax.Ordinal | dev/floyd_speak/floyd_syntax.h:203-283 | every constant has a declaration position below 24 |
| FloydSyntax.FromCode | dev/floyd_speak/floyd_syntax.h:203-283 | exactly the codes 10..33 name a declared constant |
| FloydSyntax.CodesConsecutive | dev/floyd_speak/floyd_syntax.h:203-283 | codes run from 10 to 33, and decoding a code and encoding a constant are inverse |
| FloydSyntax.CodeInjective | dev/floyd_speak/floyd_syntax.h:203-283 | distinct constants have distinct codes |
| FloydSyntax.BinaryOperatorClasses | dev/floyd_speak/floyd_syntax.h:285-307 | no operator is both arithmetic and comparison, the two classes together are exactly codes 10..22, and comparisons exactly 15..20 |
| FloydSyntax.SimpleTokensAreBinaryOperators | dev/floyd_speak/floyd_syntax.h:314-319 | a token is a simple two-operand token exactly when it spells an arithmetic or comparison operator |
| FloydSyntax.TokensDistinct | dev/floyd_speak/floyd_syntax.h:203-245 | different binary operators have different tokens |
| PrefixlessStatement.ConcatStrings | FloydSpeak/FloydSpeak/parse_prefixless_statement.cpp:37-48 | the loop builds `"\t\|\t" + e` for each element in order, and the empty list gives the empty string |
| PrefixlessStatement.JoinedAppend | FloydSpeak/FloydSpeak/parse_prefixless_statement.cpp:37-48 | joining two lists one after the other is joining each and concatenating |
| PrefixlessStatement.JoinedLength | FloydSpeak/FloydSpeak/parse_prefixless_statement.cpp:37-48 | each element adds three separator characters and its own length |
| PrefixlessStatement.TrailingRun | FloydSpeak/FloydSpeak/parse_prefixless_statement.cpp:56-61 | the longest suffix of characters from the set: all of them in the set, and the character before not |
| PrefixlessStatement.SplitPointTail | FloydSpeak/FloydSpeak/parse_prefixless_statement.cpp:54-65 | from the cut on there are identifier characters then whitespace, and the character before the cut could not extend them |
| PrefixlessStatement.TailIdentifierSplit | FloydSpeak/FloydSpeak/parse_prefixless_statement.cpp:54-65 | the identifier part is the text from the cut on |
| PrefixlessStatement.TailIdentifierSplitRebuilds | FloydSpeak/FloydSpeak/parse_prefixless_statement.cpp:54-65 | the two parts together are the input with only leading whitespace dropped |
| PrefixlessStatement.SplitAtTailIdentifier | FloydSpeak/FloydSpeak/parse_prefixless_statement.cpp:54-65 | the two backward loops cut exactly at the split point |
| PrefixlessStatement.StatementText | FloydSpeak/FloydSpeak/parse_prefixless_statement.cpp:71-76 | the statement text is never longer than the input |
| PrefixlessStatement.ClassifyCall | FloydSpeak/FloydSpeak/parse_prefixless_statement.cpp:86-119 | without a top-level `=` the answer is an expression statement or a function definition, the latter holding the trimmed text |
| PrefixlessStatement.CallShapeAt | FloydSpeak/FloydSpeak/parse_prefixless_statement.cpp:104-119 | nothing before the callee's name gives an expression statement, which needs a `;`; anything there gives a function definition |
| PrefixlessStatement.ClassifyAssignment | FloydSpeak/FloydSpeak/parse_prefixless_statement.cpp:130-149 | succeeds exactly when the text after the `=` ends in `;`, and then gives an assignment or a binding |
| PrefixlessStatement.AssignmentShape | FloydSpeak/FloydSpeak/parse_prefixless_statement.cpp:140-149 | an assignment when nothing stands before the name, otherwise a binding with that text as its type |
| PrefixlessStatement.Classify | FloydSpeak/FloydSpeak/parse_prefixless_statement.cpp:78-150 | a well-formed answer, an assignment or binding exactly when there is text before a top-level `=` |
| PrefixlessStatement.ParseImplicitStatement | FloydSpeak/FloydSpeak/parse_prefixless_statement.cpp:70-151 | a well-formed answer with the input position unchanged, failing exactly when the classification of the statement text fails |
| PrefixlessStatement.AssignmentNeedsSemicolon | FloydSpeak/FloydSpeak/parse_prefixless_statement.cpp:130-133 | with a top-level `=` after some text, the statement is accepted exactly when it ends in `;` |
| StatementShapes.StatementTextOf | FloydSpeak/FloydSpeak/parse_prefixless_statement.cpp:71-76 | the statement text is the body with its `;`, or the body alone before a `{` |
| StatementShapes.AssignForm | FloydSpeak/FloydSpeak/parse_prefixless_statement.cpp:140-146 | `x = e;` classifies as `[ASSIGN] x e` |
| StatementShapes.BindForm | FloydSpeak/FloydSpeak/parse_prefixless_statement.cpp:140-149 | `ty x = e;` classifies as `[BIND] ty x e` |
| StatementShapes.ExpressionStatementForm | FloydSpeak/FloydSpeak/parse_prefixless_statement.cpp:104-115 | `f(args);` classifies as an expression statement of the call without its `;` |
| StatementShapes.FunctionDefinitionForm | FloydSpeak/FloydSpeak/parse_prefixless_statement.cpp:104-118 | `ty f(args)` classifies as a function definition holding the whole head |
| StatementShapes.AssignStatement | FloydSpeak/FloydSpeak/parse_prefixless_statement.cpp:247-253 | ` x = e ;tail` parses to `[ASSIGN] x e` with the input position unchanged |
| StatementShapes.BindStatement | FloydSpeak/FloydSpeak/parse_prefixless_statement.cpp:213-224 | ` ty x = e ;tail` parses to `[BIND] ty x e` with the input position unchanged, for any type text balanced in brackets with no `=`, `;` or `{` outside them (so `mutable int` and `int ( string a )` as well as plain names) |
| StatementShapes.ExpressionStatement | FloydSpeak/FloydSpeak/parse_prefixless_statement.cpp:236-244 | ` f(args) ;tail` parses to an expression statement of the call with the input position unchanged |
| StatementShapes.FunctionDefinition | FloydSpeak/FloydSpeak/parse_prefixless_statement.cpp:226-234 | ` ty f(args) {tail` parses to a function definition of the head with the input position unchanged, for any return type balanced in brackets with no `=`, `;` or `{` outside them (such as `int ( string a )`) |
| StatementShapes.CallNeedsParenthesis | FloydSpeak/FloydSpeak/parse_prefixless_statement.cpp:88-96 | text whose end after whitespace and one `;` is not `)` is a syntax error |
| StatementShapes.NameStatementIsSyntaxError | FloydSpeak/FloydSpeak/parse_prefixless_statement.cpp:94-96 | a bare name such as `x;` is a syntax error |
| StatementShapes.NameCallIsSyntaxError | FloydSpeak/FloydSpeak/parse_prefixless_statement.cpp:94-96 | `x;` classifies as a syntax error |
| FloydDynamicValues.IsWellformedSignatureString | Floyd/FloydType.cpp:30-49 | a text is a well-formed signature exactly when it is longer than four characters |
| FloydDynamicValues.MakeSignature | Floyd/FloydType.cpp:54-60 | the signature keeps the text, which is longer than four characters |
| FloydDynamicValues.SignedChar | Floyd/FloydType.cpp:65-66 | a byte read as a signed `char` lies in -128..127 and agrees with the byte modulo 256 |
| FloydDynamicValues.SignatureHash | Floyd/FloydType.cpp:62-71 | the hash is a 32-bit value |
| FloydDynamicValues.HashSignature | Floyd/FloydType.cpp:62-71 | the loop's wrapped sum is 1234 plus the signed sum of the text, modulo 2^32 |
| FloydDynamicValues.SignedSumAppend | Floyd/FloydType.cpp:65-67 | the sum over two texts one after the other is the sum of their sums |
| FloydDynamicValues.HashAppend | Floyd/FloydType.cpp:62-71 | hashing more text continues from the hash of the text so far |
| FloydDynamicValues.HashRotate | Floyd/FloydType.cpp:62-71 | swapping two parts of a signature does not change its hash, so such signatures collide |
| FloydDynamicValues.GetFunction | Floyd/FloydType.cpp:207-212 | the function of a value that keeps the invariant is never null |
| FloydDynamicValues.ExactlyOneTag | Floyd/FloydType.cpp:85-119 | a value that keeps the invariant answers exactly one of the four tag tests |
| FloydDynamicValues.InvariantDeterminesValue | Floyd/FloydType.cpp:85-119 | two values that keep the invariant and agree on the tag and its payload are equal |
| FloydDynamicValues.MakeNull | Floyd/FloydType.cpp:122-128 | the result keeps the invariant and is null |
| FloydDynamicValues.MakeFloat | Floyd/FloydType.cpp:139-146 | the result keeps the invariant, is a float, and reads back the given value |
| FloydDynamicValues.MakeString | Floyd/FloydType.cpp:164-171 | the result keeps the invariant, is a string, and reads back the given value |
| FloydDynamicValues.MakeFunction | Floyd/FloydType.cpp:191-198 | the result keeps the invariant, is a function, and holds the given definition |

## Left out

- LLVM and JIT plumbing in `floyd_llvm_runtime.cpp` is not modelled, because it is foreign-library code and raw pointer reinterpretation. This covers function and global binding, the `llvm::FunctionType` builders and the host-function tables.
- The struct branches of `runtime_value_to_floyd` and `floyd_funcdef__update` are not modelled, because their member offsets come from `llvm::DataLayout`.
- The JSON-document, SHA1, time, print and file-system host functions are not modelled, because they are I/O or work on a `json_t` that is not part of this model. The JSON branch of `size` is kept, on a small JSON value datatype.
- Memory ownership is not modelled: `malloc`, `strdup`, `new`, retain/release and the leaks. Every result is a freshly allocated array, and the arguments are left unchanged.
- LlvmRuntime.Find: a vector argument must hold word-sized elements. Vectors whose elements are strings, vectors or dicts (pointer-valued) are not modelled.
- LlvmRuntime.PushBack: pointer-valued vector elements are not modelled, as for `Find`.
- LlvmRuntime.Update: vectors and dicts with pointer-valued elements are not modelled. The source stores any `runtime_value_t` (`floyd_llvm_runtime.cpp:1642`, `1656`), but the model's `requires` demands a word-sized new value when it is a vector, a dict or JSON. For string elements the model answers `Failure` instead of storing the string pointer, and the contract says nothing about that case.
- The native calling convention of the filter, map and reduce callbacks is not modelled. A callback is a Dafny function parameter.
- `compare_value_true_deep` is not part of this model. `compare_values` is `LlvmRuntime.CompareOp` applied to a three-way result `cmp` given as a parameter.
- Floating point is not modelled: doubles and `FloydDT` floats are opaque payloads, and JSON location offsets are naturals.
- The layout predicates `encode_as_vector_w_inplace_elements` and `encode_as_dict_w_inplace_values` are not part of this model. They are function parameters, and both conversion directions receive the same ones.
- `resolved_t` of the `compiler/` type variant is not modelled, because its definition is not part of this model.
- `base_type_to_string` is not part of this model. Its names are assumed to be the base-type spellings the decoder accepts: `undefined`, `any`, `void`, `bool`, `int`, `double`, `string`, `json`, `typeid`, `struct`, `vector`, `dict`, `func` and `unresolved`.
- `typeid_t::swap` is not modelled, because values are immutable here.
- The text-parser helpers `read_until_toplevel_match`, `read_balanced2`, `skip_whitespace` and `seq_t` are not part of this model. Each gets a small definition of its own, and `seq_t::rest` clamps at the end of the text.
- PrefixlessStatement.ParseImplicitStatement: calling `back()` on an empty string is undefined behaviour in C++, and the model turns it into a syntax error. When the brackets do not balance, the model reports its own "unbalanced brackets" message.
- `test_split_line` and the unit-test driver of `parse_prefixless_statement.cpp` are not modelled. Their cases are the `StatementShapes` lemmas.
- `parse_bind_statement`, `parse_assign_statement`, `parse_expression_statement` and `parse_prefixless_statement` are not modelled, because they depend on expression and type parsers that are not part of this model.
- FloydDynamicValues.HashSignature: the model assumes a signed `char`, so bytes of 0x80 and above add a negative value.
- The `FloydType.h` header is not part of this model. Tags other than the four handled ones are one `OtherTag`, and the composite pointer is kept only as whether it is set.
- FloydDynamicValues.IsWellformedSignatureString: the answer is stated as a length test, because every accepted special case is longer than four characters.
- `parse_command_line_args_subcommand` and `SplitPath` are not part of this model. The dispatch starts from the parsed arguments, and the `std::cout` trace at line 367 is dropped.
- CommandLine.ParseFloydCommandLine: its own contract only says that only `run`, `compile` and `bench` can fail. The command each subcommand produces is stated by `RunAndBenchArguments`, `BenchModes`, `UnknownSubcommandIsHelp` and the compile lemmas.
- The generic flag parser's list of known flags is not modelled. The `-b` flag that the dispatch reads is taken from the parsed flags as given.
- `make_vec` is not part of this model. A new element array starts filled with a `blank` word given as a parameter.
- The interner's assert that the table holds fewer than `INT_MAX` entries (`type_interner.cpp:51`) is not modelled. Table indices are unbounded naturals.
- Recursive (self-referential) struct types are not modelled, because the interner cannot reserve an index before interning the parts.
- `evaluate_expression2` (`parser2.h:405-410`) is `ExpressionParser.EvaluateExpression` started at the weakest precedence, and has no member of its own.
- ExpressionParser.EvaluateAtom: the `:` branch skips one character without checking it, as the source does.
- ExpressionParser.EvaluateAfterIdentifier: an identifier followed by `[` is an assertion in the source, and the model returns `Failure`.
- ExpressionParser.EvaluateSingle: the model builds a concrete expression datatype instead of calling the `maker<EXPRESSION>` callbacks.

## Findings

| source | as written | input that shows it | evidently intended | confidence | as-written member | corrected member |
|---|---|---|---|---|---|---|
| dev/floyd_speak/llvm_pipeline/floyd_llvm_runtime.cpp:1446 | the vector `replace` copies the replacement to offset `section2_len` | `replace([1,2,3], 2, 2, [9])` | the replacement at offset `section1_len`, giving `[1,2,9,3]` | not executed | LlvmRuntime.ReplaceVectorAsWrittenMisplaces | LlvmRuntime.ReplaceVector |
| FloydSpeak/FloydSpeak/parser2.h:343-349 | a single `<` or `>` skips two characters (`rest(2)`), as does the same code at 363-369 | `1<2` fails with "Unexpected end of string" | skip the one operator character | not executed | ExpressionParser.SingleComparisonAsWrittenFails | ExpressionParser.CorrectedComparison |
| FloydSpeak/FloydSpeak/parser2.h:315-340 | comparison, equality and conditional operators skip one more character after their last operand | `(1==2)` fails with "Expected ')'" | continue right after the operand | not executed | ExpressionParser.ParenthesisedComparisonAsWrittenFails | ExpressionParser.ParenthesisedComparison |
| FloydSpeak/FloydSpeak/parser2.h:315-340 | the same extra character, inside a call's argument list | `f(4==5)` fails with "Unexpected char" | the call `f` with one argument, `4==5` | not executed | ExpressionParser.ComparisonArgumentAsWrittenFails | ExpressionParser.ComparisonArgument |
| compiler/bytecode_interpreter/bytecode_helpers.cpp:164 | in the inplace-vector branch of `value_to_bc`, `vec2.push_back(...)` drops the new vector that immer's `push_back` returns, unlike lines 174 and 191, so `vec2` stays empty | `value_to_bc` of the int vector `[1]` whose type selects inplace elements, then `bc_to_value`, gives `[]` | `vec2 = vec2.push_back(...)`, keeping every element | not executed | BytecodeHelpers.InplaceVectorAsWrittenLosesElements | BytecodeHelpers.RoundTrip |
