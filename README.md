# Stashbox container core in Dafny

This project models the bookkeeping core of the Stashbox dependency-injection container
and proves properties of it. The model covers five pieces.

- **Registration repository.** It stores service registrations in two tables of persistent trees, one for concrete service types and one for open generic definitions. Each table maps a contract-type hash to an inner tree, and the inner tree maps a name hash to a registration.
  - Module `Registrations`: the registration descriptor and `Env`. `Env` bundles the type hash, the name hash and `IsUsableForCurrentContext`, as opaque functions.
  - Module `Repository`: the writers and queries as functions of the two tables, with their lemmas. The class `RegistrationRepository` holds the two fields that the `Add*`, `AddOrUpdate*` and `CleanUp` methods reassign.
- **Persistent tree** (`ImmutableTree`). The container's immutable AVL tree, given by its in-order traversal: entries with strictly ascending integer keys. Its code is not part of this model, only the behaviour the core relies on: upsert with an optional merge delegate, lookup, enumeration and the root value.
- **Concurrent tree** (`Concurrent`). A class holding a tree in a field that is replaced by compare-and-swap, retried at most 20 times. The model is sequential, and the outcome of every swap attempt is an input.
- **Circular-dependency barrier** (`BuildUp`). Acquiring a type adds it to the shared set of types being resolved, or fails when the type is already there. Disposing the barrier removes the type. A chain of nested resolutions acquires one barrier per type through `Acquire`, and its outcome is proved equal to a value-level definition of the chain.
- **Resolution scope** (`Infrastructure`). A reference class that meets the documented contract of `IResolutionScope`:
  - a scoped-instance cache with add-or-update and get-or-null;
  - a get-or-add item cache with a factory, whose own calls on the scope are part of its result;
  - tracking lists for disposal and for finalizers.
- **Func resolver** (`FuncResolution`). It resolves `Func<T1..Tn, TResult>` by resolving `TResult` and wrapping the result in a lambda over named parameters of types `T1..Tn`. Expressions and the resolution strategy are opaque. The strategy's result includes the parameter registrations it makes in the shared context.

Conventions used throughout:

- Hash codes are never assumed injective. Two keys with the same hash are the same key, as in the code.
- `null` results are `Option.None`.
- Exceptions are `Result.Failure`.

The conditional single lookup takes the **first** usable candidate in enumeration order. It prefers conditioned candidates when any exist. This follows the code (`Where(...).FirstOrDefault(...)`).

## Model

| member | source | states |
|---|---|---|
| Types.TypeInformation.Clone | src/BuildUp/Resolution/FuncResolver.cs:28 | the clone asks for the given type and keeps parent type, dependency name and custom attributes |
| ImmutableTree.Get | src/stashbox/Utils/ConcurrentTree.cs:62 | null exactly when no entry has the key; otherwise the result is the value of an entry with that key |
| ImmutableTree.Values | src/stashbox/Registration/RegistrationRepository.cs:184 | the enumerated values, one per entry, in traversal order |
| ImmutableTree.Value | src/stashbox/Utils/ConcurrentTree.cs:42 | null exactly when the tree is empty; otherwise one of the stored values |
| ImmutableTree.InsertOther | src/stashbox/Utils/ConcurrentTree.cs:65-74 | an upsert leaves the lookup of every other key unchanged |
| ImmutableTree.InsertMembers | src/stashbox/Utils/ConcurrentTree.cs:65-74 | every entry after an upsert is an old entry or the one entry under the upserted key |
| ImmutableTree.InsertValid | src/stashbox/Utils/ConcurrentTree.cs:65-74 | an upsert into a search tree keeps keys strictly ascending |
| ImmutableTree.InsertEntries | src/stashbox/Utils/ConcurrentTree.cs:65-74 | after an upsert the key finds the new value if absent, the stored value without a delegate, the delegate's result with one; the tree grows by one exactly when the key was new |
| ImmutableTree.AddOrUpdate | src/stashbox/Utils/ConcurrentTree.cs:65-74 | the upsert keeps the search-tree order, answers the merged value under its key, answers as before under every other key, and adds no other entry |
| ImmutableTree.GetEntry | src/stashbox/Utils/ConcurrentTree.cs:62 | in a search tree every stored entry is found under its own key |
| Repository.Single | src/stashbox/Registration/RegistrationRepository.cs:46-47 | upserting a name into the empty tree gives a tree with exactly that one entry |
| Repository.AddName | src/stashbox/Registration/RegistrationRepository.cs:51-54 | the `AddRegistration` upsert gives the type a name table and leaves every other type's entry as it was |
| Repository.ReplaceType | src/stashbox/Registration/RegistrationRepository.cs:65 | the `AddOrUpdateRegistration` upsert leaves the type with the one-entry table of the new registration and every other type as it was |
| Repository.AddNameValid | src/stashbox/Registration/RegistrationRepository.cs:44-56 | the `AddRegistration` upsert keeps both levels search trees and no type with an empty name table |
| Repository.ReplaceTypeValid | src/stashbox/Registration/RegistrationRepository.cs:58-67 | the `AddOrUpdateRegistration` upsert keeps the same table invariant |
| Repository.AddNameLookup | src/stashbox/Registration/RegistrationRepository.cs:51-54 | a taken (type, name) keeps its earlier registration and a free one gets the new one; other names under the type and all other types are unchanged |
| Repository.ReplaceTypeLookup | src/stashbox/Registration/RegistrationRepository.cs:58-67 | the type is left with exactly one entry, the new registration under the new name; every earlier name is gone and other types are unchanged |
| Repository.Where | src/stashbox/Registration/RegistrationRepository.cs:186 | a registration is kept exactly when it is a candidate satisfying the filter, and there are no more kept than candidates |
| Repository.WhereConcat | src/stashbox/Registration/RegistrationRepository.cs:186 | filtering a concatenation concatenates the filtered parts, so the filter keeps the candidates' order |
| Repository.FirstOrDefault | src/stashbox/Registration/RegistrationRepository.cs:187-189 | null exactly when no candidate matches; otherwise the first matching candidate in order |
| Repository.FirstOfWhere | src/stashbox/Registration/RegistrationRepository.cs:185-187 | filtering and then taking the first match equals taking the first candidate passing both tests |
| Repository.SelectConditioned | src/stashbox/Registration/RegistrationRepository.cs:175-192 | the conditional lookup returns the first usable candidate, restricted to conditioned ones when any candidate has a condition; null exactly when there is none |
| Repository.RegistrationsByType | src/stashbox/Registration/RegistrationRepository.cs:213-228 | the concrete table's entry when it has one; otherwise, for a constructed generic type only, the entry of its open definition in the generic table; null exactly when neither applies |
| Repository.RegistrationsByTypeOnly | src/stashbox/Registration/RegistrationRepository.cs:230-234 | null exactly when no concrete entry has the type's hash; otherwise that entry's name table |
| Repository.TryGetByTypeKey | src/stashbox/Registration/RegistrationRepository.cs:162-173 | null when no name table is found and otherwise one of that table's registrations; it also answers null for an empty name table, where the source answers true with a null registration |
| Repository.TryGetByNamedKey | src/stashbox/Registration/RegistrationRepository.cs:236-247 | the registration under the dependency name's hash in the type's name table, null exactly when there is no table or no such entry |
| Repository.TryGetByNamedKeyWithoutGenericDefinitionExtraction | src/stashbox/Registration/RegistrationRepository.cs:249-260 | as the named lookup, on the concrete table only |
| Repository.TryGetByTypeKeyWithConditions | src/stashbox/Registration/RegistrationRepository.cs:175-192 | a registration of the type's name table usable for the request, conditioned whenever any candidate is; null exactly when there is no table or no eligible candidate |
| Repository.TryGetByTypeKeyWithConditionsWithoutGenericDefinitionExtraction | src/stashbox/Registration/RegistrationRepository.cs:194-211 | as the conditional lookup, on the concrete table only |
| Repository.TryGetRegistration | src/stashbox/Registration/RegistrationRepository.cs:39-42 | any answer is a registration of the type's name table; a named request is answered from the concrete (type, name) entry unless the type must fall back to its generic definition |
| Repository.TryGetRegistrationWithConditions | src/stashbox/Registration/RegistrationRepository.cs:28-31 | any answer is a registration of the type's name table, usable for the request when it carries no name; a named request is answered exactly as by `TryGetRegistration` |
| Repository.TryGetRegistrationWithConditionsWithoutGenericDefinitionExtraction | src/stashbox/Registration/RegistrationRepository.cs:33-37 | the same on the concrete table only; a named request gets the concrete (type, name) entry |
| Repository.TryGetTypedRepositoryRegistrations | src/stashbox/Registration/RegistrationRepository.cs:94-113 | null exactly when no name table is found; otherwise all of its registrations, one per entry, in enumeration order |
| Repository.Constains | src/stashbox/Registration/RegistrationRepository.cs:115-122 | without a name, whether an entry has the type's hash; with a name (in a valid table), whether that entry's name table has the name's hash |
| Repository.ConstainsTypeKeyWithConditions | src/stashbox/Registration/RegistrationRepository.cs:124-143 | with a concrete entry, whether some registration in it is usable for the request; otherwise, whether the type is a constructed generic whose definition has an entry with a registration usable for the request retargeted to the definition |
| Repository.ConstainsTypeKeyWithConditionsWithoutGenericDefinitionExtraction | src/stashbox/Registration/RegistrationRepository.cs:145-150 | whether a concrete entry exists with some registration usable for the request |
| Repository.GetAllRegistrations | src/stashbox/Registration/RegistrationRepository.cs:22-26 | a registration is listed exactly when it is held in a name table of either table |
| Repository.TypeKeyLookup | src/stashbox/Registration/RegistrationRepository.cs:162-173 | the plain type lookup succeeds exactly when a name table is found for the type, and returns one of its registrations |
| Repository.AddThenNamedLookup | src/stashbox/Registration/RegistrationRepository.cs:39-56 | after `AddRegistration(t, r, n)` on a type with no entry, the named lookups (plain and conditional) of a request hashing like (t, n) return r |
| Repository.GenericTableOnlyOnMiss | src/stashbox/Registration/RegistrationRepository.cs:213-234 | the generic table is irrelevant when the concrete table has the type or the type is not a constructed generic; then lookups agree with the variants without generic extraction, and a miss on a non-generic type fails |
| Repository.GenericFallback | src/stashbox/Registration/RegistrationRepository.cs:213-228 | a constructed generic type missing from the concrete table is answered from its open definition's name table |
| Repository.ContainsAfterAdd | src/stashbox/Registration/RegistrationRepository.cs:115-122 | after `AddRegistration(t, r, n)` both `Constains(t)` and `Constains(t, n)` hold; a present (type, name) implies a present type |
| Repository.ContainsCoversConditionalLookup | src/stashbox/Registration/RegistrationRepository.cs:124-150 | when the conditional lookup finds a registration for a concretely registered type, both conditional containment tests hold |
| Repository.FlattenMember | src/stashbox/Registration/RegistrationRepository.cs:22-26 | the flattened table holds exactly the values of the inner trees |
| Repository.FlattenRegistered | src/stashbox/Registration/RegistrationRepository.cs:22-26 | in a valid table the flattened registrations are exactly those stored under some (type, name) |
| Repository.AllRegistrationsConcreteFirst | src/stashbox/Registration/RegistrationRepository.cs:22-26 | `GetAllRegistrations` lists exactly the concrete registrations first and exactly the generic-definition ones after them |
| Repository.RegistrationRepository.constructor | src/stashbox/Registration/RegistrationRepository.cs:16-20 | both tables start empty |
| Repository.RegistrationRepository.AddRegistration | src/stashbox/Registration/RegistrationRepository.cs:44-56 | the concrete table becomes the keep-existing upsert; the generic table is untouched; the invariant holds |
| Repository.RegistrationRepository.AddOrUpdateRegistration | src/stashbox/Registration/RegistrationRepository.cs:58-67 | the concrete table becomes the replace-type upsert; the generic table is untouched |
| Repository.RegistrationRepository.AddGenericDefinition | src/stashbox/Registration/RegistrationRepository.cs:69-81 | the generic table becomes the keep-existing upsert; the concrete table is untouched |
| Repository.RegistrationRepository.AddOrUpdateGenericDefinition | src/stashbox/Registration/RegistrationRepository.cs:83-92 | the generic table becomes the replace-type upsert; the concrete table is untouched |
| Repository.RegistrationRepository.CleanUp | src/stashbox/Registration/RegistrationRepository.cs:152-160 | every concrete registration is cleaned up in enumeration order, then the concrete table is dropped |
| Concurrent.ConcurrentTree.constructor | src/stashbox/Utils/ConcurrentTree.cs:52-55 | a new tree is empty |
| Concurrent.ConcurrentTree.Value | src/stashbox/Utils/ConcurrentTree.cs:42 | null exactly when empty; otherwise a stored value |
| Concurrent.ConcurrentTree.GetOrDefault | src/stashbox/Utils/ConcurrentTree.cs:62 | null exactly when the key is absent; otherwise the value stored under the key |
| Concurrent.ConcurrentTree.TrySwapCurrentRepository | src/stashbox/Utils/ConcurrentTree.cs:82-83 | with the field's current tree as comparand, an uncontended attempt installs the new tree and reports success; a contended one changes nothing |
| Concurrent.ConcurrentTree.SwapCurrentRepository | src/stashbox/Utils/ConcurrentTree.cs:85-99 | 1 to 20 attempts; success at the first uncontended attempt, with the tree recomputed from the current one; after 20 contended attempts it fails with "Swap quota exceeded." and nothing changed |
| Concurrent.ConcurrentTree.AddOrUpdate | src/stashbox/Utils/ConcurrentTree.cs:71-80 | succeeds unless the direct attempt and all 20 retries are contended; returns the receiver; the tree becomes the single-step upsert, or stays as it was on failure |
| Concurrent.ConcurrentTree.Add | src/stashbox/Utils/ConcurrentTree.cs:18-21 | stores the value under its own hash, without a merge delegate |
| Concurrent.AddOrUpdateLookup | src/stashbox/Utils/ConcurrentTree.cs:65-80 | an absent key then answers the new value; a present one keeps its value without a delegate or takes the delegate's result; other keys are unchanged |
| Concurrent.AddUncontended | src/stashbox/Utils/ConcurrentTree.cs:73-77 | when the direct swap goes through, a fresh key answers the inserted value |
| BuildUp.CircularDependencyBarrier.constructor | src/stashbox/BuildUp/CircularDependencyBarrier.cs:12-20 | acquiring an absent type adds it to the set |
| BuildUp.CircularDependencyBarrier.Acquire | src/stashbox/BuildUp/CircularDependencyBarrier.cs:12-20 | a type already in flight fails with its full name and leaves the set unchanged; otherwise a fresh barrier holds it and the set is old plus the type |
| BuildUp.CircularDependencyBarrier.Dispose | src/stashbox/BuildUp/CircularDependencyBarrier.cs:22-25 | removes exactly the barrier's own type |
| BuildUp.AcquireRelease | src/stashbox/BuildUp/CircularDependencyBarrier.cs:12-25 | acquire then dispose restores the set, and a second dispose leaves it unchanged |
| BuildUp.Nested | src/stashbox/BuildUp/CircularDependencyBarrier.cs:12-25 | two nested barriers on distinct types, released inner first, restore the set |
| BuildUp.AcquireAllSpec | src/stashbox/BuildUp/CircularDependencyBarrier.cs:12-20 | a chain of nested acquisitions succeeds exactly when it repeats no type and meets none in flight, then adds exactly its types; otherwise it fails naming a re-entered type |
| BuildUp.NestedReleaseRestores | src/stashbox/BuildUp/CircularDependencyBarrier.cs:12-25 | releasing a successful chain innermost first restores the original set |
| BuildUp.AcquireAllSnoc | src/stashbox/BuildUp/CircularDependencyBarrier.cs:12-20 | acquiring one more type after a chain fails if the chain failed or the type is held, and otherwise adds it |
| BuildUp.AcquireAllFailurePrefix | src/stashbox/BuildUp/CircularDependencyBarrier.cs:12-20 | a chain that failed fails the same way whatever is nested inside it |
| BuildUp.ReleaseChain | src/stashbox/BuildUp/CircularDependencyBarrier.cs:22-25 | disposing a chain of barriers innermost first removes exactly their types |
| BuildUp.AcquireChain | src/stashbox/BuildUp/CircularDependencyBarrier.cs:12-25 | acquiring a chain through `Acquire` holds one barrier per type and leaves the set `AcquireAll` computes; when `AcquireAll` fails it fails with the same exception and, once the held barriers are disposed, the set is as before |
| Infrastructure.LastAdded | src/stashbox/Infrastructure/IResolutionScope.cs:26-37 | the value of the latest add under the key, and null exactly when the key was never added |
| Infrastructure.ReplayIsLastAdded | src/stashbox/Infrastructure/IResolutionScope.cs:26-37 | the add-or-update map holds for each key the most recently added value |
| Infrastructure.ReplayEmpty | src/stashbox/Infrastructure/IResolutionScope.cs:15-18 | the add-or-update map is empty exactly when no add was made |
| Infrastructure.ResolutionScope.constructor | src/stashbox/Infrastructure/IResolutionScope.cs:20-23 | a new scope has the given name and holds nothing |
| Infrastructure.ResolutionScope.HasScopedInstances | src/stashbox/Infrastructure/IResolutionScope.cs:15-18 | true exactly when some scoped instance has been added |
| Infrastructure.ResolutionScope.AddScopedInstance | src/stashbox/Infrastructure/IResolutionScope.cs:15-30 | adds or updates the instance under the key, after which the scope has scoped instances; nothing else changes |
| Infrastructure.ResolutionScope.GetScopedInstanceOrDefault | src/stashbox/Infrastructure/IResolutionScope.cs:32-37 | the value most recently added under the key, or null when it was never added |
| Infrastructure.ResolutionScope.RunFactoryEffects | src/stashbox/Infrastructure/IResolutionScope.cs:25-55 | the factory's instance adds, disposal registrations and finalizer registrations are made through the scope's own methods, in order |
| Infrastructure.ResolutionScope.GetOrAddScopedItem | src/stashbox/Infrastructure/IResolutionScope.cs:57-63 | a stored item is returned and nothing changes; otherwise the factory runs once on this scope, what it added to the scope stays, and its item is stored and returned |
| Infrastructure.ResolutionScope.AddDisposableTracking | src/stashbox/Infrastructure/IResolutionScope.cs:39-46 | returns its argument and appends it to the disposal list |
| Infrastructure.ResolutionScope.AddWithFinalizer | src/stashbox/Infrastructure/IResolutionScope.cs:48-55 | returns its argument and records it with its cleanup delegate |
| Infrastructure.AddThenGet | src/stashbox/Infrastructure/IResolutionScope.cs:25-37 | after two adds under one key the scope answers the second value |
| Infrastructure.GetOrAddTwice | src/stashbox/Infrastructure/IResolutionScope.cs:57-63 | two get-or-adds under one key return the same item and run the factory at most once |
| FuncResolution.NatToString | src/BuildUp/Resolution/FuncResolver.cs:68 | the decimal text of the index is non-empty and ends in its last digit |
| FuncResolution.ExtraParameters | src/BuildUp/Resolution/FuncResolver.cs:59-71 | one parameter per generic argument but the last, parameter i typed `args[i]` |
| FuncResolution.ResolutionContext.AddParameterExpressions | src/BuildUp/Resolution/FuncResolver.cs:73 | appends the parameters under the wrapped type to the context |
| FuncResolution.ResolutionContext.RunStrategyEffects | src/BuildUp/Resolution/FuncResolver.cs:31 | the registrations the strategy makes are appended to the context in order |
| FuncResolution.PrepareExtraParameters | src/BuildUp/Resolution/FuncResolver.cs:59-75 | `args.Length - 1` parameters, parameter i typed `args[i]` and named wrapped name + argument name + i; the context gains them only when there is at least one |
| FuncResolution.LambdaArray | src/BuildUp/Resolution/FuncResolver.cs:48-53 | same length as the inner array, element i the lambda of inner element i over the parameters |
| FuncResolution.GetExpression | src/BuildUp/Resolution/FuncResolver.cs:24-34 | the last generic argument is resolved through the request retargeted to it, after the parameters are registered; the context ends with the parameters and then the strategy's own registrations; null inner gives null, otherwise a lambda over the parameters; no generic arguments fails |
| FuncResolution.GetExpressions | src/BuildUp/Resolution/FuncResolver.cs:36-54 | the context ends as for `GetExpression`; null inner gives null; otherwise an array of the same length whose element i is the lambda of inner element i over the same parameters |
| FuncResolution.IsFuncType | src/BuildUp/Resolution/FuncResolver.cs:12-22 | a type is a supported `Func` type exactly when it is closed over the `Func` definition of an arity from 1 to 8 |
| FuncResolution.CanUseForResolution | src/BuildUp/Resolution/FuncResolver.cs:56-57 | an accepted well-formed request type has one to eight generic arguments |
| FuncResolution.SupportedTypesCount | src/BuildUp/Resolution/FuncResolver.cs:12-22 | there are exactly eight supported definitions |
| FuncResolution.FuncTypeParameters | src/BuildUp/Resolution/FuncResolver.cs:56-75 | a well-formed type the resolver accepts gets at most seven parameters with pairwise distinct names |
| FuncResolution.ParameterNamesDistinct | src/BuildUp/Resolution/FuncResolver.cs:65-71 | with at most ten parameters their names are pairwise distinct |

## Left out

- Locks and atomicity: the `lock` blocks of the repository writers and `Interlocked.CompareExchange` are sequential steps. A competing writer shows up only as a contended swap attempt (an input); its own update to the field is not modelled.
- AVL balancing, rotations and heights of `AvlTree`/`ImmutableTree`: its code is not part of this model. A tree is its in-order traversal, and `Value` is the middle entry, of which only membership is stated.
- `ConcurrentTree<TKey, TValue>` keys are fixed to `int`, the only instantiation the core uses. `HasMultipleItems`, `Create` and the enumerators of the class are not modelled.
- `GetHashCode` of types, names and values and `IsUsableForCurrentContext` are opaque functions. `HasCondition` is an opaque field of an otherwise opaque registration.
- A registration's own `CleanUp` is recorded as a call, in order. Its effect on the registration is not modelled.
- The repository methods require the concrete table to be present. In the code, using the repository after `CleanUp` throws a null reference exception.
- `TryGetByTypeKey` can return true with a null registration if a type maps to an empty name table. The table invariant excludes that, because no writer creates an empty name table.
- Null registrations, null types and null names passed to the writers are not modelled.
- Type-system facts: `FullName` of a closed generic type is its definition's full name here. The type arguments are left out of the name.
- `IsFuncType` (not part of this model) is taken to mean a closed generic type whose definition is one of `SupportedTypes`.
- `TypeInformation` carries only the four fields the core reads or copies.
- `ResolutionScope` disposal, `RootScope`, and the activation forwarding of `ResolutionScope.cs` are not modelled. Named-scope preference, decorators, lifetimes and reflection over constructors and members are not modelled either.
- `ResolutionContext` is modelled only as the log of parameter registrations. The strategy's registrations in it are part of the strategy's result; its other effects on the context are not modelled, and it sees only that log.
- Infrastructure.ResolutionScope.GetOrAddScopedItem: a factory's effects on the scope are limited to instance adds, disposal registrations and finalizer registrations, each kind replayed in call order (their interleaving across kinds is not kept). A factory that calls `GetOrAddScopedItem` on the same scope is not modelled.
- The `Name` property of a scope is the constant `name` field; a nameless scope has `None`.
- Concurrent.ConcurrentTree.TrySwapCurrentRepository: requires the comparand to be the field's current tree. A comparand made stale by another writer is represented by a contended attempt.
- Repository.Constains: the named case is stated for a table with distinct type keys, which every writer keeps.
- FuncResolution.ParameterNamesDistinct: proved only for at most ten parameters, where the last digit of the index separates the names. That covers every supported `Func` type.
