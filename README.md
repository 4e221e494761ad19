# EnabledIf gating and the type-data extension points, in Dafny

This project models two parts of the OpenTAP engine.

**EnabledIf** (`enabled_if.dfy`). A setting decorated with `EnabledIfAttribute`
is enabled only while each sibling property it names holds one of the listed
values. A null sibling never disables it, and an `IEnabled` sibling is
compared by its `IsEnabled` flag. The model covers:

- the attribute constructor, whose default value list is `[true]`;
- the `CompareTo`-based comparison, including the `ArgumentException` it throws
  on a type mismatch;
- the short-circuiting `Any` scan;
- the IEnabled special case;
- the single-attribute check;
- the multi-attribute loop with its `hidden`, `dependentProp` and
  `dependentValue` outputs;
- the delegating overloads, `DependsOn` and `IsVisible`.

A member is its name and its attribute list. An instance is a map from
property names to values.

**Type-data extension points**. These are the test-only providers the
engine's unit tests plug into the type-data registry:

- `descriptors.dfy` holds the type and member descriptors. Among them are the
  expanded descriptor (`ExpandedTypeInfo`), its dynamic members
  (`ExpandedMemberData`) and the dictionary-backed expandable object
  (`MyExpandedObject`). The object is a class whose `SetValue` updates it in
  place.
- `expansion.dfy` holds the expansion provider (`ExpandMemberDataProvider`).
  It resolves `exp@<name>` names and expandable objects. Its re-entrancy flag
  `excludeSelf` is a field of a class whose `GetTypeData(object)` calls back
  into the resolution chain.
- `searcher.dfy` holds the test searcher (`TypeDataSearcherTestImpl`): its
  observable list of test descriptors, the snapshot that `Search` copies, the
  `Enable` switch, the type source the descriptors report, and the
  cache-invalidation event. That event is hooked to the list's change
  notification only while it has subscribers.

The rest of the registry is a parameter. A function from names to descriptors
stands for name lookup. A function from objects to descriptors stands for what the
providers after the expansion provider answer.

Three behaviours of the code are easy to misread:

- An expanded descriptor's `GetMember` never returns null. It makes a dynamic
  member for any name, even one the object does not hold.
- A sibling value that is neither null, IComparable nor IEnabled disables
  the member. `CompareTo` throws `ArgumentException` on it, and the catch
  block sets the condition to false. Only a null value never disables.
- An IEnabled value is matched on its `IsEnabled` flag. The matching stops at
  the first listed value that is not a Boolean and does not equal the flag,
  because that comparison throws first.

## Model

| member | source | states |
|---|---|---|
| EnabledIf.NewEnabledIf | Engine/EnabledIfAttribute.cs:41-48 | keeps the property name; the value list is never empty; it is exactly `[true]` when the argument array is null, empty or `[true]` |
| EnabledIf.CompareTo | Engine/EnabledIfAttribute.cs:165-174 | CompareTo returns zero exactly for the same constant. It returns non-zero exactly for null or another value of the same type. Any other argument throws ArgumentException. |
| EnabledIf.AsComparable | Engine/EnabledIfAttribute.cs:154 | `as IComparable` gives a value exactly for IComparable values, and that value is the sibling's own |
| EnabledIf.AnyEqual | Engine/EnabledIfAttribute.cs:165 | `PropertyValues.Any(t => t.CompareTo(value) == 0)`: it matches only on a listed constant equal to the value, throws only when some comparison throws, and never matches or throws for null |
| EnabledIf.NoMatchIff | Engine/EnabledIfAttribute.cs:165 | `Any` finds nothing, without throwing, exactly when every comparison is non-zero |
| EnabledIf.FirstDecisive | Engine/EnabledIfAttribute.cs:165-174 | the first comparison that is not non-zero decides `Any`: a match, or the exception |
| EnabledIf.MatchedIff | Engine/EnabledIfAttribute.cs:165 | `Any` matches exactly when some listed value compares equal and every comparison before it is non-zero |
| EnabledIf.FirstNotUnequal | Engine/EnabledIfAttribute.cs:165 | the index where `Any` stops scanning: every earlier comparison is non-zero and the one there is not |
| EnabledIf.SameKindScan | Engine/EnabledIfAttribute.cs:165 | with constants of the value's own type, `Any` is plain membership and never throws |
| EnabledIf.IsEnabledBy | Engine/EnabledIfAttribute.cs:204-237 | false for a missing property; otherwise the condition on its value. A null value passes. A non-comparable value fails. With constants of its own type, a value passes exactly when it is listed. |
| EnabledIf.ConditionHolds | Engine/EnabledIfAttribute.cs:157-175 | the condition one attribute puts on a sibling value: a comparable value that passes is listed; an IEnabled value that passes has its flag listed; a value neither comparable nor IEnabled fails |
| EnabledIf.EvaluateCondition | Engine/EnabledIfAttribute.cs:153-175 | the try/catch of one loop iteration computes the condition on the sibling's value |
| EnabledIf.NullNeverDisables | Engine/EnabledIfAttribute.cs:165 | a null sibling value never disables |
| EnabledIf.EnablerIsMatchedOnFlag | Engine/EnabledIfAttribute.cs:157-163 | an IEnabled value is matched as its IsEnabled flag would be: the flag is listed, and every constant before it is a Boolean |
| EnabledIf.IndexOf | Engine/EnabledIfAttribute.cs:33 | the first position of a constant in PropertyValues, or the length; it is in range exactly when the constant is listed |
| EnabledIf.ListedValueMatches | Engine/EnabledIfAttribute.cs:29-33 | with constants of the value's type, the condition holds exactly when the value is listed |
| EnabledIf.MismatchDisables | Engine/EnabledIfAttribute.cs:171-175 | a throwing comparison reached before any match disables |
| EnabledIf.NonComparableDisables | Engine/EnabledIfAttribute.cs:165-175 | a value that is neither IComparable nor IEnabled disables |
| EnabledIf.DefaultWantsTrue | Engine/EnabledIfAttribute.cs:44-45 | with no listed values, the condition holds exactly when the Boolean or IEnabled flag is true |
| EnabledIf.FirstMissing | Engine/EnabledIfAttribute.cs:141-151 | the index of the first attribute whose property the instance lacks, or the count; every earlier one is present |
| EnabledIf.HiddenStopsAtMissing | Engine/EnabledIfAttribute.cs:143-151 | no attribute after a missing property can set `hidden` |
| EnabledIf.IsEnabled | Engine/EnabledIfAttribute.cs:125-181 | ArgumentNullException for a null property or instance. Otherwise: enabled is the AND of every attribute's check; a missing property returns false with no dependent property; hidden is set by a failing attribute that hides, reached before any missing property; hidden implies disabled; the dependent property and value are the last ones looked at. |
| EnabledIf.IsEnabledReflection | Engine/EnabledIfAttribute.cs:59-114 | as written: NullReferenceException exactly when some attribute names a missing property; otherwise the same results as IsEnabled |
| EnabledIf.IsEnabledWithDependent | Engine/EnabledIfAttribute.cs:191-195 | the argument errors; otherwise enabled, the dependent property and the dependent value of the full check |
| EnabledIf.IsEnabledSimple | Engine/EnabledIfAttribute.cs:259-275 | the argument errors; otherwise true exactly when every attribute's check passes |
| EnabledIf.IsEnabledHidden | Engine/EnabledIfAttribute.cs:284-287 | the argument errors; otherwise enabled and hidden of the full check, with hidden implying disabled |
| EnabledIf.DependsOn | Engine/EnabledIfAttribute.cs:294-305 | ArgumentNullException exactly for a null property; otherwise one property name per attribute, in attribute order |
| EnabledIf.IsVisible | Engine/EnabledIfAttribute.cs:313-320 | visible exactly when the member is enabled or this attribute does not hide disabled members |
| EnabledIf.MissingPropertyExample | Engine/EnabledIfAttribute.cs:77-86 | one attribute naming a missing property: the reflection overload throws NullReferenceException, while the IMemberInfo overload returns false, not hidden |
| Descriptors.ExpandedObject.constructor | Engine.UnitTests/MemberDataProviderTests.cs:450 | a new expandable object holds no names and no values |
| Descriptors.ExpandedObject.Names | Engine.UnitTests/MemberDataProviderTests.cs:451 | the names are exactly the dictionary's keys, each once |
| Descriptors.ExpandedObject.GetValue | Engine.UnitTests/MemberDataProviderTests.cs:453-458 | the stored value, or null for a name never set |
| Descriptors.ExpandedObject.SetValue | Engine.UnitTests/MemberDataProviderTests.cs:460-463 | stores the value under the name and changes no other name; a new name is added once |
| Descriptors.Name | Engine.UnitTests/MemberDataProviderTests.cs:376 | stripping the `exp@` prefix from an expanded descriptor's name gives its inner descriptor's name; other descriptors keep their own name (line 84) |
| Descriptors.BaseType | Engine.UnitTests/MemberDataProviderTests.cs:380 | an expanded descriptor always has a base type, the descriptor whose name its own is with the prefix removed; a test descriptor keeps the one it was built with (line 78) |
| Descriptors.CanCreateInstance | Engine.UnitTests/MemberDataProviderTests.cs:382 | however deeply wrapped, a descriptor can create instances exactly when its core can: a test descriptor when it has a creator (line 80) |
| Descriptors.Attributes | Engine.UnitTests/MemberDataProviderTests.cs:378 | however deeply wrapped, a descriptor carries its core's attributes: for a test descriptor the one Display("unittesting") tag (line 82) |
| Descriptors.TestTypeMembers | Engine.UnitTests/MemberDataProviderTests.cs:92-117 | a test descriptor's only member is Hello, declared by it; GetMember answers Hello with that member and every other name with null |
| Descriptors.DynamicMembers | Engine.UnitTests/MemberDataProviderTests.cs:398-401 | one dynamic member per name, in order, declared by the expanded descriptor |
| Descriptors.Members | Engine.UnitTests/MemberDataProviderTests.cs:394-404 | an expanded descriptor without an object throws NullReferenceException; that is the only exception |
| Descriptors.ExpandedMembersLayout | Engine.UnitTests/MemberDataProviderTests.cs:394-404 | an expanded descriptor's members are its dynamic members, in name order, followed by all inner members; the count is the sum |
| Descriptors.GetMember | Engine.UnitTests/MemberDataProviderTests.cs:389-392 | an expanded descriptor answers every name with a dynamic member of that name. A test descriptor answers only `Hello` (lines 92-97). |
| Descriptors.GetMemberAgreesWithMembers | Engine.UnitTests/MemberDataProviderTests.cs:389-404 | for every dynamic name, GetMember gives the member GetMembers lists at that position |
| Descriptors.GetMemberNeverAbsent | Engine.UnitTests/MemberDataProviderTests.cs:389-392 | GetMember answers even for a name that neither the object nor the inner descriptor has, with a member GetMembers does not list |
| Descriptors.MemberTypeDescriptor | Engine.UnitTests/MemberDataProviderTests.cs:348-357 | NullReferenceException exactly when the declaring descriptor is not expanded or has no object. Otherwise null exactly when the current value is null or unresolvable, else the value's resolved descriptor. |
| Descriptors.MemberGetValue | Engine.UnitTests/MemberDataProviderTests.cs:359-362 | the owner's value under the member's name; NullReferenceException for a null owner; InvalidCastException for an owner that is not expandable |
| Descriptors.MemberSetValue | Engine.UnitTests/MemberDataProviderTests.cs:364-367 | stores the value, so GetValue then returns it; the same exceptions as GetValue |
| Expansion.StartsWith | Engine.UnitTests/MemberDataProviderTests.cs:413 | the identifier has the prefix exactly when it is the prefix followed by the rest of it |
| Expansion.GetTypeDataByName | Engine.UnitTests/MemberDataProviderTests.cs:411-422 | answers exactly the identifiers with the `exp@` prefix whose remainder resolves; the answer wraps that descriptor, with no object |
| Expansion.PrefixedLookup | Engine.UnitTests/MemberDataProviderTests.cs:413-419 | `exp@` + n resolves to the wrapper of n's descriptor, or to null when n does not resolve |
| Expansion.ResolvedNameIsIdentifier | Engine.UnitTests/MemberDataProviderTests.cs:411-419 | when resolution keeps names, the wrapper is named by the identifier it was resolved from, as its name is `exp@` plus the inner name (line 376) |
| Expansion.NameResolvedMembersThrow | Engine.UnitTests/MemberDataProviderTests.cs:394-404 | the wrapper made at line 418 has no object, so enumerating the members of a descriptor resolved by name throws NullReferenceException |
| Expansion.NameRoundTrip | Engine.UnitTests/MemberDataProviderTests.cs:376-419 | the name of any wrapper resolves by name to a wrapper of the same inner descriptor, without an object, whenever the inner descriptor's name resolves to it |
| Expansion.ExpandProvider.constructor | Engine.UnitTests/MemberDataProviderTests.cs:424 | a new provider starts with its re-entrancy flag clear |
| Expansion.ExpandProvider.GetTypeDataOf | Engine.UnitTests/MemberDataProviderTests.cs:424-442 | an expandable object, asked while the flag is clear, gets a wrapper of what the rest of the chain answers, holding that object; anything else, or a re-entrant call, gets null; the flag is restored |
| Expansion.ExpandProvider.Resolve | Engine.UnitTests/MemberDataProviderTests.cs:430 | the nested lookup: while the flag is set the expansion provider is skipped, so the answer is the other providers' |
| Expansion.ResolveExpandable | Engine.UnitTests/MemberDataProviderTests.cs:425-442 | an expandable object resolves to exactly one wrapper around its plain descriptor, never a wrapper of a wrapper; afterwards the flag is clear |
| Searcher.RemoveLast | Engine.UnitTests/MemberDataProviderTests.cs:194 | removing a handler takes out its last occurrence and keeps every other handler in order, or changes nothing when it is absent |
| Searcher.RemoveUndoesAdd | Engine.UnitTests/MemberDataProviderTests.cs:190-194 | subscribing and then unsubscribing the same handler restores the subscriber list |
| Searcher.FirstNamed | Engine.UnitTests/MemberDataProviderTests.cs:172 | the first descriptor with that name, or null exactly when none has it |
| Searcher.TestSearcher.constructor | Engine.UnitTests/MemberDataProviderTests.cs:134-145 | the two hard-coded test descriptors; only the second has a creator; the type source lists exactly them |
| Searcher.TestSearcher.Types | Engine.UnitTests/MemberDataProviderTests.cs:156 | empty when disabled; otherwise null exactly when the snapshot's count differs from the list's, else the snapshot |
| Searcher.TestSearcher.SetEnable | Engine.UnitTests/MemberDataProviderTests.cs:152-153 | sets the switch and nothing else |
| Searcher.TestSearcher.Search | Engine.UnitTests/MemberDataProviderTests.cs:158-161 | the snapshot becomes the current list; nothing else changes |
| Searcher.TestSearcher.AddType | Engine.UnitTests/MemberDataProviderTests.cs:147-150 | appends one test descriptor without a creator; while hooked (lines 202-205), each subscriber is notified once, in order |
| Searcher.TestSearcher.Subscribe | Engine.UnitTests/MemberDataProviderTests.cs:184-191 | the handler is appended and the list-change handler is attached |
| Searcher.TestSearcher.Unsubscribe | Engine.UnitTests/MemberDataProviderTests.cs:192-199 | the handler is removed; the list-change handler stays attached exactly while subscribers remain |
| Searcher.TestSearcher.GetTypeDataByName | Engine.UnitTests/MemberDataProviderTests.cs:172 | the first listed descriptor with that name, or null exactly when no listed descriptor has it |
| Searcher.TestSearcher.GetTypeDataOf | Engine.UnitTests/MemberDataProviderTests.cs:174-179 | the CLI test action gets the last listed descriptor; every other object gets null |
| Searcher.TestSearcher.GetSource | Engine.UnitTests/MemberDataProviderTests.cs:163-168 | test descriptors report the test type source; all others report none |
| Searcher.TestSearcher.ListedTypesHaveSource | Engine.UnitTests/MemberDataProviderTests.cs:163-168 | every listed descriptor reports the test type source |
| Searcher.TestSearcher.SetHelloValue | Engine.UnitTests/MemberDataProviderTests.cs:67-72 | setting it on any owner makes every owner read the new value |
| Searcher.InvalidationScenario | Engine.UnitTests/MemberDataProviderTests.cs:237-257 | with one subscriber, two additions each grow the searched count by one and raise exactly two invalidations; before the next Search the stale snapshot reads as null; the type source still lists two types (line 324) |
| Searcher.UnsubscribedScenario | Engine.UnitTests/MemberDataProviderTests.cs:192-199 | after the last subscriber leaves, an addition raises no invalidation |

## Left out

- Reflection and attribute discovery are left out. A member is given as its list of EnabledIf attributes, and an instance as a map from property names to values. Inherited attributes and the order reflection returns them in are not modelled.
- The warning written to the log when a property is missing is left out, because it is I/O.
- EnabledIf.CompareTo: only Boolean, Int32, String and enum constants are modelled, and comparisons across other numeric types are out of scope. String equality is ordinal in the model, whereas `String.CompareTo` is culture-sensitive and returns 0 for canonically equivalent strings that differ ordinally ("\u00E5" and "a\u030A"); for such a pair the model disables a member the source enables.
- EnabledIf.NewEnabledIf: a null or non-IComparable element of the argument array is not modelled. Such an element makes `Cast<IComparable>` throw InvalidCastException, or leaves a null that throws NullReferenceException when the `Any` scan reaches that element; the `catch (ArgumentException)` does not catch it.
- EnabledIf.Value: an IEnabled value is taken as not IComparable. For such a value `dependentValue` is null.
- The `IsEnabled(PropertyInfo, ...)` overloads (lines 246-251 and 272-275) only cast to MemberInfo. They are covered by IsEnabledWithDependent and IsEnabledSimple.
- IsEnabledWithDependent, IsEnabledSimple, IsEnabledHidden and IsVisible are modelled over EnabledIf.IsEnabled, the corrected check, rather than over the overload they call, which throws NullReferenceException for a missing property (see Findings).
- CreateInstance of the test and expanded descriptors is left out: it invokes a creator delegate or reflection.
- `MyProp1` of the expandable object is left out: nothing in the modelled code reads it.
- Descriptors are values. The source compares them by reference (for example, `AllItemsAreUnique`), and that identity is not modelled.
- Descriptors.Members: GetMembers is lazy (`yield`) in the source. The model gives the enumerated result, and raises the exception as when it is enumerated.
- Descriptors.ExpandedObject.Names: the dictionary's key order is taken as insertion order. .NET leaves a Dictionary's key order unspecified; the current implementation enumerates keys in insertion order while none is removed, and the object never removes keys.
- Expansion.ExpandProvider.Resolve: the providers' priorities (1 for both the expansion provider and the test searcher) are not modelled. The registry's provider chain is taken as "the expansion provider first, then the rest". The real order, by priority and plugin order, and the registry's caching are not modelled.
- Expansion.ExpandProvider.GetTypeDataOf: an exception from the nested lookup would leave `excludeSelf` set, because there is no `finally`. The other providers are total functions here, so that case does not arise.
- The searcher keeps its list, switch and type source in static state, and the switch in a session-local value. The model holds one searcher object and one session.
- Searcher.TestSearcher.Subscribe: handlers are identified by numbers, and a null handler is not modelled. Adding null in C# would attach the list-change handler and leave the event null.
- The registry's `GetDerivedTypes` and the plugin search that consult the searcher are left out. InvalidationScenario drives Search and Types directly.
- Expansion.StartsWith: the prefix test is ordinal, whereas `String.StartsWith(string)` at line 413 is culture-sensitive. An identifier with an ignorable character inside the prefix, such as "exp\u00AD@Foo", passes the source's test and fails the model's.
- Null arguments the model cannot express are left out: a null instance in the single-attribute check (EnabledIfAttribute.cs line 206, NullReferenceException), a null name in the expandable object's GetValue and SetValue (lines 456 and 462, ArgumentNullException), and a null identifier in the expansion provider's name lookup (line 413, NullReferenceException).
- Thread safety is not modelled: the model is sequential.

## Findings

| source | as written | input that shows it | evidently intended | confidence | as-written member | corrected member |
|---|---|---|---|---|---|---|
| Engine/EnabledIfAttribute.cs:77-86 | When the named property does not exist, the reflection overload logs a warning and sets `enabled` to false. It then calls `GetValue` on the null PropertyInfo, which throws NullReferenceException. | a member with one EnabledIf attribute naming a property the instance's type does not have | return false, as the IMemberInfo overload does (lines 143-151) and the single-attribute check does (lines 207-214) | high; not executed | EnabledIf.IsEnabledReflection, EnabledIf.MissingPropertyExample | EnabledIf.IsEnabled |
