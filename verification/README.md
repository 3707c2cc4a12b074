# Corto's type system, modelled in Dafny

This project models the runtime type system of corto (`src/lang`), the parts of its object store that the
type system rests on (`src/store`), and the owning sequences and lists of its C binding (`c/src`). It proves
what these promise each other: a method number stays valid in every subtype, an interface call reaches the
method a lookup by signature would find, derived flags tell when a deep operation may be skipped, every
claim and every heap block is accounted for, and so on. Where the code does not keep a promise, the model
follows the code and the exact condition under which the promise holds is proved.

`dafny verify dfyconfig.toml` checks everything.

| file | contents |
|---|---|
| `Store.dfy` | objects, reference counters, claim and release |
| `Overload.dfy` | distance between a declared method and a requested signature |
| `MethodLookup.dfy` | the scan of a method table for the closest signature |
| `VTable.dfy` | method tables of interfaces: inheritance, binding, stability of slots |
| `ClassDispatch.dfy`, `ClassRelease.dfy` | interface vectors of classes, their claims and how these come back, calls through them, instances |
| `DispatchLaws.dfy` | dispatch against lookup; the verdict of the interface check |
| `Types.dfy` | types, values, ownership, derived flags |
| `Copying.dfy`, `Releasing.dfy`, `Initialising.dfy` | deep copy, deinit and init against the flags |
| `Layout.dfy`, `TypeConstruct.dfy`, `Sizes.dfy` | sizes, alignments, offsets; the construct functions of collections, structs and classes |
| `Relations.dfy` | castability and compatibility |
| `Delegates.dfy` | conformance of procedures, the delegate filter, bound slots |
| `Functions.dfy`, `Parameters.dfy` | argument blocks, procedure types, conflicting overloads; parameter lists |
| `Constants.dfy` | enum and bitmask constants |
| `Sequences.dfy`, `Lists.dfy`, `Counting.dfy` | owning containers of the C binding and their ledgers |

## How to read it

* State that the C code changes in place is a class whose methods change fields; each method is proved
  against a function on values, and the laws are lemmas about these functions.
* Reference counts are stated as `Accounts(held, others)`: the counter of every object equals the number of
  pointers in `held` plus what `others` says everybody else holds. An operation that keeps `others` conserves
  claims. Builtin objects are exempt from counting, as in the code.
* `Rules` carries the two decisions the method tables depend on: the distance between signatures and the
  compatibility of procedures. Nothing is assumed about compatibility. About distances the laws of tables
  assume `Canonical`: distance zero means equal canonical signature. `Overload` shows that this is the same
  as distance zero being an equivalence, that it holds for declared methods whose parameters are `Settled`,
  and that a parameter of type `any` breaks it.

## What the code does that its callers may not expect

* The interface check reports the last method of each level only: a class that misses an earlier method is
  accepted with an empty slot (`DispatchLaws.VerdictExact`, `CodedVerdictMissesGap`).
* An interface call uses the table of the nearest class that lists the interface; overrides in classes below
  it are not seen (`DispatchLaws.InterfaceCallsIgnoreOverrides`, `OverrideNotSeen`).
* Freeing the vectors of a builtin class never returns the claims on interfaces. That leaves all counters
  right exactly if the interfaces are builtin themselves, as they are for the one builtin class that lists
  any (`ClassDispatch.ConstructAndDestruct`). For other classes deinit of the class object returns every
  claim (`ClassRelease.DeinitReturnsClaims`).
* Lookup never hands back the error distance that binding tests for
  (`MethodLookup.LookupNeverReportsError`).
* Distance zero does not tell integer types apart, nor any two primitive types of the same kind such as two
  enums (`Overload.KeyExact`).
* A method that is not overridable is replaced by one of its signature from another scope, without a
  compatibility check, exactly if the new one is not marked as an override
  (`VTable.FinalIsReplaced`, `FinalReplacedByIncompatible`).
* Neither resource flag is set for an `any` or for an optional member, so "no flag" allows a bitwise copy
  only where neither is stored in place (`Copying.ShallowCopySound`).
* Deinit keeps the buffers of sequences of plain elements, maps, set optional members of plain type and
  references in arrays of classes without resources, and misreads lists of lists or maps
  (`Releasing.ReleaseExact`).
* The resource flags do not know what an `any` holds: its references are not seen by `HAS_REFERENCES`
  (`Types.ReferencesExact`, `AnyHidesReference`).
* `NEEDS_INIT` skips the initialiser for a struct whose only anys, or lists in arrays, are in plain members,
  although the initialiser would set them up (`Initialising.NeedsInitExact`, `PlainAnyIsMissed`,
  `PlainArrayOfListsIsMissed`). It is set in vain by the class of referenced array elements, by optional
  members and their default values, and by maps without key type.
* Comparing names, a text without parameter list agrees with nothing, not even itself
  (`Overload.CompareName`).
* A pointer to an optional member is placed by the alignment of the member's type
  (`Layout.PointerSlotAligned`).
* The parameter loop of delegate compatibility never decides anything
  (`Delegates.CodedCompatibleMeaning`).
* A function is bound to a delegate before it is validated and stays bound when it is rejected: a slot
  conforms exactly if validation would accept the last function initialised into it
  (`Delegates.ConformanceExact`, `RejectedStaysBound`).
* A conflicting overload leaves every object of the claimed scope with one claim too many
  (`Functions.CheckOverloads`).
* A signature that fails to parse keeps the claims on the types resolved before the failure
  (`Parameters.InitAndDestruct`).
* Removing an object that is not in a list gives away somebody else's claim (`Lists.ObjectList.Remove`).
* The 32nd constant of a bitmask is the sign bit (`Constants.ShiftedExact`), and enum numbers are exact up to
  2^31 constants (`Constants.NumberingExact`).

## Model

| member | source | states |
|---|---|---|
| `Store.ObjectStore.Claim` | src/store/object.c:3200-3214 | the counter of the object grows by one unless it is builtin; no other counter changes |
| `Store.ObjectStore.Release` | src/store/object.c:3217-3263 | the counter falls by one unless NULL or builtin; the object is destructed exactly when its counter reaches zero |
| `Store.ObjectStore.Replace` | src/store/object.c:5318-5331 | the new object gains a claim and the old one loses one, in this order, so storing an object over itself never destructs it |
| `Store.ObjectStore.ReplaceHeld` | src/store/object.c:5318-5331 | accounts move from the old to the new pointer; nothing is destructed if somebody else keeps the old object |
| `Overload.CompareName` | src/store/object.c:4535-4556 | two texts agree exactly if both have a parameter list and the names before it are equal up to case, or both are empty; a text without list agrees with nothing else |
| `Overload.ComputeOverload` | src/store/object.c:4647-4748 | the loop computes the outcome of the whole comparison and hands back its code: the distance, or -2, -3 and -1 for another name, other parameters and a failure |
| `Overload.OutcomeMeaning` | src/store/object.c:4664-4747 | another name decides first, then another number of parameters, then the first parameter that does not match or fails |
| `Overload.MatchedMeaning` | src/store/object.c:4730-4741 | a match is at the sum of the distances of its parameters |
| `Overload.PrimitiveDistance` | src/lang/primitive.c:165-226 | between different primitive kinds texts match nothing and floats no binary, character, enum or bitmask; integers match each other at no distance, all else at one |
| `Overload.CompositeDistance` | src/store/object.c:4440-4449 | a composite is at k + 1 from a request whose base k it first is, one more for an object where a value is asked for, and does not match other requests |
| `Overload.OtherValuesDistance` | src/lang/collection.c:28-48 | collections match those of the same kind, elements and map keys at no distance; types of different kinds, or not defined, match only themselves |
| `Overload.ReferenceNeedsReference` | src/store/object.c:4396-4399 | a parameter that takes references does not match a value |
| `Overload.MarkedRequest` | src/store/object.c:4396-4408 | marking a request as a reference adds one, but the same spelling is at distance zero |
| `Overload.ObjectForValue` | src/store/object.c:4461-4467 | a value that is no composite matches objects at two, a boolean at one |
| `Overload.ReferenceDistanceMeaning` | src/store/object.c:4451-4465 | between references not both composite: a generic one is as far as the request's inheritance is deep, at least one; others are at one |
| `Overload.UnnamedRequests` | src/store/object.c:4390-4428 | anything matches a wildcard; null matches references, texts and anys, and a boolean at one |
| `Overload.AnyMatches` | src/store/object.c:4410-4413 | an any matches every value and every value an any, at no distance |
| `Overload.ComparisonFails` | src/store/object.c:4686-4706 | a comparison fails exactly if a type that has to be looked at does not resolve |
| `Overload.ToLowerMeaning` | src/store/object.c:4535-4556 | characters agree exactly if they are equal or one letter in two cases |
| `Overload.KeyExact` | src/store/object.c:4376-4486 | for settled parameters comparison succeeds, and distance zero is equality of a key: type by identity for reference and composite types, kind for primitives with all integers alike, elements for collections, spelling for other references |
| `Overload.ZeroDistanceExact` | src/store/object.c:4647-4748 | distance zero if and only if same name up to case and same keys, parameter by parameter |
| `Overload.CanonicalExact` | src/store/object.c:4647-4748 | a canonical signature that distance zero tests for exists if and only if every comparison succeeds and distance zero is an equivalence |
| `Overload.SettledMethodsCanonical` | src/store/object.c:4647-4748 | methods with settled, consistently spelled parameters have canonical signatures: name and keys |
| `Overload.ExactMatchIsSignatureMatch` | src/store/object.c:4886-4928 | an exact lookup in a table without duplicate signatures finds the entry with the signature of the request, and nothing if there is none |
| `Overload.AnyBreaksCanonical` | src/store/object.c:4411-4414 | overloads on an any and on two types that differ admit no canonical signature |
| `MethodLookup.LookupFunction` | src/store/object.c:4823-4928 | the scan with its early exit computes the fold over the whole table |
| `MethodLookup.LookupMeaning` | src/store/object.c:4823-4928 | the result is the unique closest match; nothing if two are equally close; without a match the first overload with other parameters; else nothing |
| `MethodLookup.LookupStop` | src/store/object.c:4837-4857 | where a comparison fails, nothing is found, whatever matched before; a bare name met before any match is found |
| `MethodLookup.LookupNeverReportsError` | src/lang/interface.c:513-519 | the distance handed back is never the error code, so the test for it is dead |
| `MethodLookup.ExactMatchMeaning` | src/lang/interface.c:47-54 | with canonical signatures and no duplicates, distance zero finds exactly the entry with the requested signature |
| `VTable.InterfaceType.VtableInsert` | src/lang/interface.c:57-89 | a method not yet in the table is appended; reports whether it was |
| `VTable.InterfaceType.VtableFromBase` | src/lang/interface.c:8-44 | the table becomes that of the base with one claim per entry |
| `VTable.InterfaceType.TakeSlot` | src/lang/interface.c:559-560 | one slot changes, claims follow, and a method kept by others is not destructed |
| `VTable.InterfaceType.AddMethod` | src/lang/interface.c:582-584 | insertion adds exactly one claim when it inserts |
| `VTable.InterfaceType.BindMethod` | src/lang/interface.c:494-598 | table, index and outcome are those of `Bind`; each slot still holds one claim, whatever the outcome |
| `VTable.InterfaceType.BindScope` | src/lang/interface.c:627-634 | methods are bound in scope order until the first failure; claims stay accounted for and no method that others keep is destructed |
| `VTable.InterfaceType.Construct` | src/lang/interface.c:627-634 | the table is the inherited one with the scope bound into it; one claim per slot, also after a failure; no method that others keep is destructed |
| `VTable.BindRejects` | src/lang/interface.c:503-574 | a method is rejected if and only if an interface declares it not overridable, it is an override of nothing overridable, or it clashes with an equal signature from its own scope or with one it is incompatible with |
| `VTable.FinalIsReplaced` | src/lang/interface.c:521-560 | the slot of a method that is not overridable goes to one of its signature from another scope if and only if that is not an override, and overridable if an interface declares it |
| `VTable.FinalReplacedByIncompatible` | src/lang/interface.c:548-560 | a method that is not overridable replaced by an incompatible one |
| `VTable.BindSound` | src/lang/interface.c:494-598 | if not rejected, the method is at the index it is told, no signature occurs twice, and at most the slot with its own signature, from another scope, was taken over |
| `VTable.BindUpToSound` | src/lang/interface.c:627-634 | after binding a scope every method of it is in the table, slots keep their signatures, and all other entries are inherited |
| `VTable.OverrideMeaning` | src/lang/interface.c:543-574 | an inherited slot holds this scope's method with that signature if there is one, else what it held |
| `VTable.LevelsGood` | src/lang/interface.c:627-657 | in every chain of constructed types, each table has distinct signatures and extends that of its base slot by slot |
| `VTable.IndexStability` | src/lang/interface.c:588-594 | a method index taken from an ancestor addresses, in every descendant, exactly what lookup of that signature finds there |
| `ClassDispatch.CheckMethod` | src/lang/class.c:22-41 | a slot is written exactly if an exact and compatible implementation exists, which is also the verdict |
| `ClassDispatch.CheckInterfaceCompatibility` | src/lang/class.c:8-49 | the vector after all base levels is `Fill`, the verdict that of the last method of each level; one claim per filled slot, and no method that others keep is destructed |
| `ClassDispatch.BuildVector` | src/lang/class.c:69-81 | one more interface: one claim on it and one per filled slot |
| `ClassDispatch.ClassType.Construct` | src/lang/class.c:51-106 | vectors up to and including the first rejected interface are filled, the rest stay zeroed; success if and only if every interface is accepted; claims account for exactly the stored pointers |
| `ClassDispatch.ClassType.Destruct` | src/lang/class.c:108-132 | for a builtin class all vectors are zeroed and every claim on a method returned, none on an interface; other classes keep everything |
| `ClassDispatch.ConstructAndDestruct` | src/lang/class.c:51-132 | construction then destruction of a builtin class returns all counters to their start but for one claim per interface got to; to their start exactly if these interfaces are builtin |
| `ClassRelease.VectorsClaims` | src/lang/class.c:61-82 | the interfaceVector value of a class owns one claim per filled slot and one per stored interface |
| `ClassRelease.VectorsBlocks` | src/lang/class.c:64-79 | it owns each of its buffers once |
| `ClassRelease.VectorsReleased` | src/store/object.c:5024-5038 | deinit of the class object gives back exactly what its interface vectors own |
| `ClassRelease.DeinitReturnsClaims` | src/store/object.c:5024-5038 | after deinit of a constructed class the counters of its methods and interfaces are what everybody else holds |
| `ClassDispatch.ResolveInterfaceMethod` | src/lang/class.c:178-210 | the slot of the first entry for the interface in the nearest class that has one; NULL if no class has |
| `ClassDispatch.ScanEntries` | src/lang/class.c:189-196 | the first entry for the interface |
| `ClassDispatch.InstanceOf` | src/lang/class.c:153-176 | true exactly if the class is in the base chain of the object's class |
| `ClassDispatch.InstanceOfIsPartialOrder` | src/lang/class.c:153-176 | reflexive, transitive and antisymmetric on classes with finite base chains |
| `DispatchLaws.VerdictExact` | src/lang/class.c:20-48 | the intended verdict holds if and only if the coded one does and no method but the last of a level lacks an implementation |
| `DispatchLaws.CodedVerdictMissesGap` | src/lang/class.c:20-48 | a class implementing only the second of two methods is accepted with an empty first slot |
| `DispatchLaws.FillMeaning` | src/lang/class.c:21-46 | each slot holds the implementation found by the deepest base level that has one, else what it held |
| `DispatchLaws.FillerIsLookup` | src/lang/class.c:20-48 | however many levels rewrote a slot, it holds what lookup of the interface's own method gives, if some level accepts it |
| `DispatchLaws.ConstructedInterfacesCarry` | src/lang/interface.c:627-657 | constructed interfaces carry the table of their base as a prefix, as the recursion over bases needs |
| `DispatchLaws.DispatchIsLookup` | src/lang/class.c:178-210 | through any chain of constructed classes, method n of an interface resolves to the exact match of its signature in the nearest class listing the interface |
| `DispatchLaws.NotImplemented` | src/lang/class.c:197-205 | no entry is found if and only if no class of the chain lists the interface |
| `DispatchLaws.ResolveIsLookup` | src/lang/class.c:178-210 | the resolving method, run on constructed class objects, returns exactly that lookup, or NULL where no class lists the interface; where the listing class implements every method it returns its exact match |
| `DispatchLaws.OverridesInTables` | src/lang/interface.c:543-574 | below a class a signature keeps its index, and the slot keeps its method if and only if no class in between declares the signature again |
| `DispatchLaws.InterfaceCallsIgnoreOverrides` | src/lang/class.c:178-210 | the slot an interface call resolves to is the method a lookup in the object's own class finds, if and only if the listing class backs the slot and no class below it declares the signature again |
| `DispatchLaws.CallReachesOwnMethod` | src/lang/class.c:178-210 | the same of the resolving method run on class objects |
| `DispatchLaws.OverrideNotSeen` | src/lang/class.c:178-210 | two classes constructed without complaint for which an interface call reaches the overridden method |
| `Types.UnflaggedOwnsNothing` | include/lang/lang.h:13-18 | a value of a type without resource and reference flag, with no any or optional member in place, owns no block and no claim |
| `Types.ReferencesExact` | src/lang/array.c:63-67 | some value of the type owns a claim on an object, at any depth, if and only if HAS_REFERENCES is set or an any can occur in the type |
| `Types.AnyHidesReference` | src/lang/type.c:114-116 | an any that owns a reference, while no resource flag is set for anys |
| `Initialising.InitWrites` | src/store/init_ser.c:25-156 | the init serializer changes zero-filled storage exactly if the type holds, in place, an any, a list or keyed map that may not be NULL or is an array element, or a default value other than zero, in members that are not optional |
| `Initialising.InitLeaves` | src/store/init_ser.c:25-156 | zero-filled storage after the serializer: every any an owner, every list and keyed map that must have a handle with an empty one, set members at their default value, all else zero |
| `Initialising.InitOwnsFreshBlocks` | src/store/init_ser.c:71-84 | without default values it owns each block newly numbered exactly once and nothing else: no handle is shared |
| `Initialising.PtrInitLeaves` | src/store/ptr.c:47-72 | initialised storage is of its type, is as the serializer would leave it if and only if the type is flagged or nothing is missed, and shares no handle |
| `Initialising.NeedsInitExact` | src/store/ptr.c:47-72 | skipping the serializer is right if and only if the flag is set or nothing is missed; the flag is exact if and only if a flagged type holds something the serializer writes and an unflagged one misses nothing |
| `Initialising.NeedsInitOfCollections` | src/lang/array.c:68-70 | without structs the flag says that the storage consists of anys, lists or maps, through arrays; it is set in vain exactly for maps without key type and arrays of references to a flagged class |
| `Initialising.PlainAnyIsMissed` | src/lang/interface.c:322-327 | a struct with an any in a plain member is not flagged and leaves the any without ownership |
| `Initialising.PlainArrayOfListsIsMissed` | src/lang/interface.c:322-327 | a struct with an array of lists in a plain member is not flagged although the serializer creates the lists |
| `Copying.ShallowCopySound` | include/lang/lang.h:13-18 | where neither flag is set: every deep copy the serializer can make is bitwise, and every value owns nothing, if and only if no any or optional member is stored in place |
| `Copying.CopyOwnsFreshBlocks` | src/store/copy_ser.c:25-475 | a deep copy is of the type, owns exactly the blocks copying allocated, each once, and, without maps, equals the original with the same counted pointers |
| `Copying.CopyDropsMaps` | src/store/copy_ser.c:354-373 | maps are left out of copies, wherever they are |
| `Releasing.DeinitAtMost` | src/store/free.c:75-148 | deinit never gives back what the value does not own, nor anything twice, for any type |
| `Releasing.FreedAndKept` | src/store/free.c:75-148 | for every type, what a value owns is given back or is among what the instructions leave behind, exactly |
| `Releasing.DeinitLeaves` | src/store/ptr.c:74-97 | the same of deinit, which leaves behind all of an unflagged type |
| `Releasing.DeinitComplete` | src/store/ptr.c:74-97 | on releasable types it gives back everything and reads no list wrongly |
| `Releasing.ZeroDeinit` | c/src/lang.c:4270-4278 | deinit of zero-filled storage of any type gives nothing back, as growing a sequence relies on |
| `Releasing.ReleaseExact` | src/store/typecache.c:189-221 | deinit is exact for every value of a type if and only if the type is releasable |
| `Releasing.ElementsReleasable` | include/lang/_type.h:83-90 | parameters, interface vectors and mount subscriptions are released completely by deinit, as the ledgers of the owning containers take for granted |
| `Releasing.IntegerSequenceKeepsBuffer` | src/store/typecache.c:214-218 | deinit of a sequence of integers gives back nothing although the value owns its buffer |
| `Releasing.CopyThenDeinit` | src/store/ptr.c:74-112 | releasing a copy returns every block the copy allocated, once, and no other |
| `Layout.CalculateSize` | src/lang/interface.c:182-229 | offsets and size are those of the unbounded computation whenever the end fits 32 bits; then zero reports an unsized or unaligned member or struct, or is the size of an empty struct without base |
| `Layout.CalculateAlignment` | src/lang/interface.c:144-179 | the largest alignment of all members, pointers for members stored by pointer; zero if a member has none |
| `Layout.LayoutSound` | src/lang/interface.c:182-229 | members lie behind the base, in order, disjoint, inside the struct, each aligned for its type; one stored by pointer takes up a pointer |
| `Layout.LayoutTight` | src/lang/interface.c:211-226 | each member starts less than its alignment behind the end of the one before, and the struct ends less than its alignment behind the last |
| `Layout.PointerHidesSize` | src/lang/interface.c:195-200 | the layout does not change with the size of the type of a member stored by pointer |
| `Layout.ElementsAligned` | src/lang/interface.c:226-226 | with power-of-two alignments, members stay aligned in every element of an array of structs |
| `Layout.PointerSlotAligned` | src/lang/interface.c:195-216 | the pointer of an optional member is always aligned if and only if the alignment of its type is a multiple of the pointer's |
| `Layout.NestedArraySize` | src/lang/array.c:41-48 | wrapping at each level gives the product of all bounds and the base size wrapped once, exact if and only if that fits 32 bits |
| `Layout.ElementInside` | src/lang/array.c:43-48 | every element of a nested array lies inside it |
| `Layout.ElementAligned` | src/lang/array.c:43-48 | every element offset is aligned if the base size is a multiple of its alignment |
| `Layout.ElementsDisjoint` | src/lang/array.c:43-48 | elements at different index paths do not overlap |
| `TypeConstruct.TypeObject.PrimitiveConstruct` | src/lang/primitive.c:229-260 | primitives of each width get their size and alignment, texts those of a word and the resource flag |
| `TypeConstruct.TypeObject.AnyConstruct` | src/lang/type.c:99-116 | anys get their size, alignment and the init flag |
| `TypeConstruct.DirectElementsFit` | src/lang/collection.c:57-109 | elements kept in place of a pointer are no wider than one; all other types are 64-bit primitives, anys, arrays, sequences or structs |
| `TypeConstruct.TypeObject.ArrayConstruct` | src/lang/array.c:5-75 | succeeds if and only if an element type is set, usable and sized and the bound is not zero; then size, alignment and flags are those of the description; both element fields are set, and one that was set before is kept |
| `TypeConstruct.TypeObject.SequenceConstruct` | src/lang/sequence.c:21-44 | succeeds if and only if there is an element type, then as described |
| `TypeConstruct.TypeObject.ListConstruct` | src/lang/list.c:5-27 | succeeds if and only if there is an element type, then as described |
| `TypeConstruct.TypeObject.MapConstruct` | src/lang/map.c:5-31 | succeeds if and only if there is an element type, then as described, with element type and bound mirrored into the collection part |
| `TypeConstruct.TypeObject.InsertMembers` | src/lang/interface.c:297-351 | succeeds if and only if every member has a type; then the flags gain exactly those of the members described |
| `TypeConstruct.TypeObject.StructConstruct` | src/lang/struct.c:76-183 | where the size fits 32 bits: succeeds if and only if all members have types, the base is valid and the struct described can be laid out; then flags, size and alignment are those of the description, base included |
| `TypeConstruct.WithBase` | src/lang/struct.c:158-180 | laying members out behind a base equals laying them out behind a first member of the base type |
| `TypeConstruct.NestedLayout` | src/lang/array.c:41-58 | an array type nested to any depth has the product of bounds times the base size, wrapped once, and the alignment of the innermost element |
| `Relations.CastableUnrolled` | src/lang/collection.c:5-26 | castable if and only if the levels agree, arrays with arrays of equal bound, down to a level whose element types are the same object |
| `Relations.CastableTransitive` | src/lang/collection.c:5-26 | transitive |
| `Relations.CastableReflexive` | src/lang/collection.c:5-26 | reflexive |
| `Relations.CastableSymmetric` | src/lang/collection.c:5-26 | castable back if and only if arrays stand against arrays of the same bound on every level compared |
| `Relations.CompatibleIsEquivalence` | src/lang/collection.c:28-48 | an equivalence |
| `Relations.CompatibleExact` | src/lang/collection.c:28-48 | compatible are exactly the collections of the same kind, element type and, for maps, key type |
| `Relations.CompatibleAgainstCastable` | src/lang/collection.c:5-48 | compatible collections are castable if and only if they are not arrays of different bounds |
| `Relations.IteratorExact` | src/lang/iterator.c:12-29 | an iterator is compatible with exactly the iterators and collections of its element type |
| `Relations.IteratorClosed` | src/lang/iterator.c:12-29 | an iterator is compatible with all or none of two compatible collections |
| `Relations.IteratorsRelateElements` | src/lang/iterator.c:12-29 | collections an iterator is compatible with are those of one element type, castable to each other unless array-ness or bounds differ |
| `Delegates.InstanceOf` | src/lang/delegate.c:147-191 | true if and only if the object is a procedure that conforms; what the loop meets behind a shorter parameter list makes no difference |
| `Delegates.ConformsMeaning` | src/lang/delegate.c:134-145 | conformance is equal types and arity with references only added |
| `Delegates.ConformsIsPartialOrder` | src/lang/delegate.c:134-191 | a partial order, so a procedure can be replaced by any that conforms to it |
| `Delegates.CompatibleV` | src/lang/delegate.c:12-47 | the code computes equality of return type, return reference and arity for delegates, and accepts every procedure type |
| `Delegates.CodedCompatibleMeaning` | src/lang/delegate.c:12-47 | an equivalence on delegates; conformance both ways is this and equal parameters |
| `Delegates.CodedCompatibleExact` | src/lang/delegate.c:12-47 | a compatible delegate is this one with any parameters of the same number; procedure types always are compatible, other types never |
| `Delegates.CompositeType.MemberConstruct` | src/lang/member.c:28-30 | in every order of member constructions the flag says exactly that a delegate member was constructed |
| `Delegates.CompositeType.Finish` | src/lang/interface.c:648-652 | a finished type has the flag if and only if it or its base has a delegate member |
| `Delegates.LookupMember` | src/lang/struct.c:248-261 | the loop over levels and members resolves as `ResolveMember` does |
| `Delegates.ResolveMeaning` | src/lang/struct.c:248-261 | resolution finds the first member of the name at the nearest level of the base chain that declares it, and nothing if and only if no level does |
| `Delegates.FilterHidesNothing` | src/lang/delegate.c:49-70 | what is found is exactly the nearest member of the name, own or inherited, if that is a delegate: skipping lookup on a clear flag never hides one |
| `Delegates.Instance.InitFunction` | src/lang/function.c:197-205 | initialising a named function with a this stores it in the delegate of its name |
| `Delegates.Instance.ConstructFunction` | src/lang/function.c:83-89 | construction succeeds if and only if there is no delegate of the name or the function conforms to it; slots stay as they are |
| `Delegates.SlotsConform` | src/lang/delegate.c:72-111 | after any run, a slot whose function was constructed conforms to the delegate of its member |
| `Delegates.SlotsExact` | src/lang/delegate.c:72-89 | over any run a slot is bound if and only if some initialisation targeted it, and holds the last function that did |
| `Delegates.ConformanceExact` | src/lang/delegate.c:72-111 | a slot is unbound or conforms if and only if validation accepts the last function initialised into it, run or not |
| `Delegates.RejectedStaysBound` | src/lang/delegate.c:72-111 | a function that does not conform is bound and remains so after its construction fails |
| `Functions.FunctionObject.Construct` | src/lang/function.c:21-81 | sets return type, return reference and, on an unsized function, the 16-bit sum of the this slot and all parameter slots; a missing buffer fails with only the this slot counted |
| `Functions.SlotMeaning` | src/lang/function.c:52-77 | the slot of an in-parameter passed by value is as wide as its type, but a pointer for arrays and structs; that of any other parameter is a pointer |
| `Functions.BlockMeaning` | src/lang/function.c:33-81 | the block is `this`, as wide as its type or else a pointer, plus everything carried, modulo 2^16 |
| `Functions.TotalOfPermutation` | src/lang/function.c:52-79 | the sum does not depend on the order of parameters |
| `Functions.BlockSizeLaws` | src/lang/function.c:33-81 | the stored size is invariant under permutation and exact if and only if the true size fits 16 bits |
| `Functions.SafeParameterCount` | src/lang/function.c:33-81 | with an object this, every list of n parameters is sized exactly if and only if n is at most 2730 |
| `Functions.ConstructAgain` | src/lang/function.c:21-81 | constructing twice gives the size of constructing once, even when that wrapped to zero |
| `Functions.ProcedureObject.Construct` | src/lang/procedure.c:5-18 | constructed on its base first, a procedure gets the hasThis of its description |
| `Functions.HasThisMeaning` | src/lang/procedure.c:9-15 | hasThis if and only if some procedure on the unbroken chain of procedure bases declares it |
| `Functions.GetProcedureType` | src/lang/function.c:7-16 | the nearest procedure at or above the function's type, none if there is none |
| `Functions.CheckOverloads` | src/lang/function.c:129-189 | accepted if and only if no other object of the scope fails to compare or is at distance zero under another id; marks exactly the overloads; on a conflict the claims on the scope remain |
| `Functions.CheckDeclaredOverloads` | src/lang/function.c:129-189 | with the distance between signatures: accepted if and only if no other function of the scope has the same signature under another id; the functions marked are those of the same name with another signature |
| `Functions.ToldMeaning` | src/lang/function.c:135-153 | a conflict is the same signature under another id, an overload the same name with another signature |
| `Functions.ToldConflicts` | src/lang/function.c:135-153 | whatever the parameters, a conflict is a failed comparison or distance zero under another id |
| `Parameters.FillEntry` | src/lang/function.c:256-299 | an entry is accepted if and only if it parses, its type resolves, it carries no reference mark on a reference type, and it has a name; a resolved type is claimed in either case |
| `Parameters.DirectionMeaning` | src/lang/function.c:265-273 | a parameter gives values out exactly if marked out, and only out exactly if not marked in as well |
| `Parameters.FillEntries` | src/lang/function.c:256-299 | the loop accepts exactly the lists of good entries, fills the buffer with them in order, and claims what the entries reached resolve to |
| `Parameters.StringToParameters` | src/lang/function.c:232-314 | the buffer holds exactly the parsed parameters, or length -1 and no buffer; the claims taken are those of the entries reached |
| `Parameters.DestructParameters` | src/lang/function.c:108-120 | returns one claim per parameter type and clears every entry |
| `Parameters.InitAndDestruct` | src/lang/function.c:101-121 | parsing then destructing conserves all claims for a good signature; otherwise the claims taken before the failure remain |
| `Parameters.LeaksNothing` | src/lang/function.c:309-313 | a failing signature leaves no claim behind if and only if its first type was not resolved |
| `Constants.EnumType.DeclareConstant` | src/lang/constant.c:8-37 | the constant gets its number or power of two, is appended and claimed, and a numbered type stays numbered |
| `Constants.EnumType.ConstantFromValue` | src/lang/enum.c:28-41 | the first constant with the value, NULL if there is none |
| `Constants.EnumType.ConstantOfNumber` | src/lang/enum.c:28-41 | on a numbered enum value v leads to constant v for all v in range, everything else to NULL |
| `Constants.EnumType.Destruct` | src/lang/enum.c:87-99 | returns the claim on every constant and leaves none |
| `Constants.DeclareAll` | src/lang/enum.c:7-20 | constants declared in a fresh scope are numbered in order, with one claim each |
| `Constants.DeclareScope` | src/lang/enum.c:7-20 | in a scope that also holds other objects each constant is numbered by its place; the type is numbered in order if and only if nothing else is there |
| `Constants.DeclareAndDestruct` | src/lang/enum.c:7-99 | declaring and destructing conserves every claim |
| `Constants.NumberingExact` | src/lang/enum.c:9-9 | numbers are 0 to n - 1 if and only if n is at most 2^31 |
| `Constants.ToInt32Meaning` | src/lang/enum.c:9-9 | every number is the int32 congruent to the place |
| `Constants.ShiftedExact` | src/lang/bitmask.c:9-9 | the first n constants are the powers of two if and only if n is at most 31; constant 31 is the sign bit |
| `Constants.BitmaskIndependent` | src/lang/bitmask.c:7-18 | the values of a bitmask are the powers of two in order if and only if there are at most 31; then no two share a bit and every mask of their width is the union of exactly one choice of them |
| `Constants.BitsOf` | src/lang/bitmask.c:9-9 | union and intersection of masks work bit by bit |
| `Constants.ConstantsDisjoint` | src/lang/bitmask.c:9-9 | different powers of two have no bit in common |
| `Constants.UnionInjective` | src/lang/bitmask.c:9-9 | different subsets of constants have different unions |
| `Constants.EveryMaskIsUnion` | src/lang/bitmask.c:9-9 | every mask below 2^n is the union of a subset of n constants |
| `Sequences.ApplyMeaning` | c/src/lang.c:4236-4284 | slot by slot: resizing keeps what fits, drops the rest in order and fills up with zeroes; appending keeps all; only a zeroed slot is assigned |
| `Sequences.ApplyConserves` | c/src/lang.c:4236-4284 | one append, assignment or resize keeps every element in exactly one place |
| `Sequences.RunConserves` | c/src/lang.c:4236-4284 | over any run every element ever initialised is in the sequence once or was deinitialised once |
| `Sequences.ClearedLeavesNothing` | c/src/lang.c:4282-4284 | clearing after any run has deinitialised every element exactly once |
| `Sequences.OwningSeq.AppendElement` | c/src/lang.c:4236-4246 | the new contents are the old ones and a copy of the element |
| `Sequences.OwningSeq.AppendAllocated` | c/src/lang.c:4248-4257 | the new contents are the old ones and a zeroed slot |
| `Sequences.OwningSeq.ResizeTo` | c/src/lang.c:4259-4280 | the prefix is kept, dropped elements are deinitialised in order, new slots are zero, and deinit of the new slots does nothing |
| `Sequences.OwningSeq.DeinitFrom` | c/src/lang.c:4261-4268 | deinitialises exactly the elements from an index on |
| `Sequences.OwningSeq.Clear` | c/src/lang.c:4282-4284 | resizes to nothing |
| `Lists.ObjectList.Insert` | c/src/lang.c:4160-4165 | one more element at the front, one more claim unless NULL |
| `Lists.ObjectList.Append` | c/src/lang.c:4167-4172 | one more element at the end, one more claim unless NULL |
| `Lists.ObjectList.Remove` | c/src/lang.c:4174-4177 | takes out the first occurrence; claims are conserved if and only if the element was present (or is NULL or builtin), else one claim of somebody else is lost; the element is destructed exactly if its counter reaches zero |
| `Lists.ObjectList.TakeFirst` | c/src/lang.c:4179-4181 | hands the first element and its claim to the caller |
| `Lists.ObjectList.Clear` | c/src/lang.c:4191-4198 | returns one claim per element, destructing nothing that others keep |
| `Lists.ObjectList.Assign` | c/src/lang.c:2166-2174 | the list holds the new elements with one claim each; nothing is destructed on the way if others keep each old element |
| `Lists.WithoutMeaning` | c/src/lang.c:4174-4177 | removal takes out one occurrence and no other |
| `Lists.WithoutFirst` | c/src/lang.c:4174-4177 | the first occurrence goes and all else keeps its order |
| `Lists.StepObjects` | c/src/lang.c:4160-4198 | every operation on a list of objects keeps the counters at start value plus occurrences in the list plus those taken out less removals that found nothing |
| `Lists.RunOnObjects` | c/src/lang.c:4160-4198 | reference conservation over any run from an empty list, with nulls and absent removals |
| `Lists.RunKeepsOnePlace` | c/src/vstore.c:1770-1822 | over any run every allocated node is in the list, with a caller, or freed: in one place, once |
| `Lists.RunRefinesValues` | c/src/vstore.c:1770-1822 | the list refines a sequence of values in order |
| `Lists.ValuesConserved` | c/src/vstore.c:1770-1822 | over any run every value that entered is in the list, with a caller, or was deinitialised with its node, once each time it entered |
| `Lists.ValueList.Insert` | c/src/vstore.c:1770-1784 | a new node with a copy of the element at the front |
| `Lists.ValueList.Append` | c/src/vstore.c:1786-1800 | a new node with a copy of the element at the end |
| `Lists.ValueList.TakeFirst` | c/src/vstore.c:1802-1804 | the first node leaves the list and belongs to the caller; nothing on an empty list |
| `Lists.ValueList.Clear` | c/src/vstore.c:1814-1822 | every node is freed once with its value deinitialised, in order |

## Left out

- Scanning of signature text (`corto_sig_paramType` and its kin) and resolution of type names: a parameter comes with its spelling, its marks and the types the name leads to.
- Overload.ComputeOverload: a request without parameter list is not modelled, since it never gets past the comparison of names; the claims that resolving types for a comparison takes, and never returns, are not counted; distances are unbounded, and the laws about tables require them below INT_MAX.
- Requests for a bare name: the table scan takes the verdict on such an entry as given, because it depends on the `overloaded` marks, which `BindMethod` sets on overloads and the model of it does not.
- `corto_interface_checkProcedureCompatibility`: any relation between methods; no law needs more.
- `corto_interface_pullDelegate` and the construct, destruct, define and similar delegates of classes.
- VTable.InterfaceType.BindMethod: does not set the `overloaded` marks.
- VTable.InterfaceType.Construct: pulled delegates and the flags derived from them are not modelled.
- VTable.InterfaceType.VtableInsert: does not search for an empty slot, because no operation leaves one.
- ClassDispatch.ClassType.Destruct: the memory of the vectors is not modelled, only their contents; the code leaves the freed pointers in place.
- ClassDispatch.ClassType.Construct: a vector is filled in place in an array and then stored as a value; construction of the struct part is an outcome given by the caller.
- ClassDispatch.ResolveInterfaceMethod: requires the method number to be within the vectors, which the code does not check; every type in the base chain is a class.
- Types: unions, iterators as values, native types, observable members, void, and types with their own init or deinit delegates.
- Copying.CopyOwnsFreshBlocks: values in which copying comes to an any that holds nothing or no primitive are excluded, because the code then follows a NULL pointer; destinations are zero-filled and of the same type.
- Initialising.NeedsInitExact: for a list or map that is not itself a struct member the serializer reads the member modifiers out of its type object; the model takes them to allow the handle, as they do for types with default attributes. Default values come parsed.
- Releasing.ReleaseExact: counts what is given back; it says nothing about when.
- Releasing.ElementsReleasable: the result type is not covered, because it has an iterator among its members; the typecache ends at that member, so the reference behind it is not released.
- Layout.CalculateSize: aliases take no part; CORTO_ALIGN, defined by the platform library, is taken as rounding up to a multiple.
- TypeConstruct.TypeObject.ArrayConstruct: claims on element types are not counted; the size of a pointer is 8 bytes.
- TypeConstruct.TypeObject.MapConstruct: claims on element types are not counted.
- TypeConstruct.TypeObject.StructConstruct: claims on members are not counted; keys, observable members and aliases are not modelled; a size that does not fit 32 bits is excluded from the result.
- Relations: type objects are values with an identity, and chains of element types are finite.
- Delegates.Instance.InitFunction: claims on the slot and the stored instance pointer are not counted.
- Functions.FunctionObject.Construct: validation against a delegate is `Delegates.Instance.ConstructFunction`; the binding-specific initialisation after it is not modelled.
- Parameters.StringToParameters: the failing parameter count cannot occur, because the list was found before it is counted.
- Constants.EnumType.DeclareConstant: requires at most 32 constants in a bitmask scope, beyond which C leaves the shift undefined; a parent that is neither enum nor bitmask is an error not modelled; during bootstrap values are not assigned.
- Sequences: lengths stay below 2^32; object, interface and string sequences of the binding are not covered.
- Lists: the linked list of the platform library is a sequence; string lists are not covered.
- Threads, locks, logging, bootstrap and everything in the object store beside counting, lookup and set_ref.
