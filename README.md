# MediatR attributed behaviors, modelled in Dafny

MediatR.Extensions.AttributedBehaviors lets a request type declare the pipeline behaviors that
wrap its handler. Each `[MediatRBehavior(typeof(B), lifetime, order)]` attribute on the request
names a behavior class, a lifetime (Scoped by default) and an order (the attribute's source line
by default). The attribute's constructor derives the behavior's capability interface: the single
`IPipelineBehavior<,>` interface that the behavior class implements. A registration pass,
`AddMediatRAttributedBehaviors`, then works as follows:

- it scans the distinct assemblies it is given;
- it keeps the types that are requests (they implement `IRequest`, or `IRequest<>` through the
  type or one of its base types) and that carry the attribute;
- for each such type, in scan order, it appends one service descriptor per attribute to the
  dependency-injection service collection, in stable order of `Order`. The descriptor is
  capability interface → behavior class, with the attribute's lifetime.

The container then resolves the behaviors in registration order, the first registered being
the outermost.

The project has these modules, one per file:

- `Wrappers`: `Option` and `Result`.
- `DependencyInjection`: `ServiceLifetime`, `ServiceDescriptor`, and the `ServiceCollection`
  class, whose `Add` appends a descriptor.
- `Reflection`: a type table standing in for .NET reflection.
  - For each type it records its generic type definition, all the interfaces it implements
    (as `GetInterfaces()` reports them), its base type and the attribute usages recorded on it.
  - An assembly lists the types it defines.
  - `WellFormed` makes the table closed, and makes the base-type relation acyclic by giving a
    base type a smaller handle than any type deriving from it.
- `BehaviorAttribute`: the attribute, with its constructor and the call-site defaults.
- `Linq`: `Distinct`.
- `OrderBy`: `OrderBy(attr => attr.Order)` as a stable insertion sort.
- `ServiceCollectionExtensions`: `IsAssignableToGenericType`, the query, a specification
  function `Emit` of the nested loops, and the two registration methods.
  - The list overload is a method with the outer loop.
  - The inner loop is the method `AddDescriptors`.
  - The outer loop is proved against `Emit` and the inner loop against `Descriptors`, each by
    its invariants.
- `Scenarios`: the request types of the repository's four test classes, as concrete type tables. Each
  test's `Ping` is modelled in an assembly of its own (see "## Left out").

A thrown exception is modelled as a `Failure` carrying a `ConfigError`.

## Model

| member | source | states |
|---|---|---|
| BehaviorAttribute.NewBehaviorAttribute | src/MediatR.Extensions.AttributedBehaviors/MediatRBehaviorAttribute.cs:16-21 | the constructor succeeds exactly when the behavior type has one IPipelineBehavior<,> interface; it fails with NoPipelineBehaviorInterface for none and AmbiguousPipelineBehaviorInterface for several. On success the behavior type, lifetime and order are stored as passed, and the interface type is one of the behavior's interfaces and an IPipelineBehavior<,> |
| BehaviorAttribute.ConstructorOutcome | src/MediatR.Extensions.AttributedBehaviors/MediatRBehaviorAttribute.cs:21 | Single's three outcomes as if-and-only-ifs: success iff exactly one interface matches; the "none" error iff no interface matches; the "ambiguous" error iff two different positions match |
| BehaviorAttribute.ConstructorInterfaceIsUnique | src/MediatR.Extensions.AttributedBehaviors/MediatRBehaviorAttribute.cs:21 | after a successful construction, every IPipelineBehavior<,> interface of the behavior type is the stored InterfaceType |
| BehaviorAttribute.PositionsDecideCase | src/MediatR.Extensions.AttributedBehaviors/MediatRBehaviorAttribute.cs:21 | counting the matching interfaces decides the case: 0 iff none, 1 iff exactly one, 2 or more iff two distinct ones |
| BehaviorAttribute.PipelineBehaviorPositions | src/MediatR.Extensions.AttributedBehaviors/MediatRBehaviorAttribute.cs:21 | the result lists exactly the positions of the IPipelineBehavior<,> interfaces, strictly increasing |
| BehaviorAttribute.Declare | src/MediatR.Extensions.AttributedBehaviors/MediatRBehaviorAttribute.cs:16 | an omitted lifetime is Scoped; an omitted order is the line the attribute is written on; explicit arguments are kept |
| BehaviorAttribute.DeclareDefaults | src/MediatR.Extensions.AttributedBehaviors/MediatRBehaviorAttribute.cs:16 | with both optional arguments omitted, the declaration is Scoped and ordered by its line |
| ServiceCollectionExtensions.AssignableIffAncestorMatches | src/MediatR.Extensions.AttributedBehaviors/ServiceCollectionExtensions.cs:33-47 | IsAssignableToGenericType holds iff some type on the base chain of the given type (the type included) has an interface whose generic definition is the target, or is itself an instance of it |
| ServiceCollectionExtensions.AncestorMatchMakesAssignable | src/MediatR.Extensions.AttributedBehaviors/ServiceCollectionExtensions.cs:35-46 | a direct match at any position of the base chain makes the type assignable to the generic type |
| ServiceCollectionExtensions.AssignableHasMatchingAncestor | src/MediatR.Extensions.AttributedBehaviors/ServiceCollectionExtensions.cs:35-46 | an assignable type has a position on its base chain where the type matches directly, and the lemma returns it |
| ServiceCollectionExtensions.BaseChain | src/MediatR.Extensions.AttributedBehaviors/ServiceCollectionExtensions.cs:45-46 | the chain starts at the type, each step goes to the base type, and it ends at a type without a base |
| ServiceCollectionExtensions.AllDefinedTypes | src/MediatR.Extensions.AttributedBehaviors/ServiceCollectionExtensions.cs:17 | SelectMany: a type is in the result iff one of the assemblies defines it |
| ServiceCollectionExtensions.AllDefinedTypesAppend | src/MediatR.Extensions.AttributedBehaviors/ServiceCollectionExtensions.cs:17 | SelectMany keeps the assemblies' order: the types of a concatenation of assembly lists are those of the first list followed by those of the second |
| ServiceCollectionExtensions.WhereQualifies | src/MediatR.Extensions.AttributedBehaviors/ServiceCollectionExtensions.cs:18-20 | a type is kept iff it is in the input and is a request type carrying the attribute |
| ServiceCollectionExtensions.WhereQualifiesAppend | src/MediatR.Extensions.AttributedBehaviors/ServiceCollectionExtensions.cs:18-20 | the filter keeps scan order: filtering a concatenation of type runs is filtering the first run, then the second |
| ServiceCollectionExtensions.QueriesWithAttributes | src/MediatR.Extensions.AttributedBehaviors/ServiceCollectionExtensions.cs:17-20 | a type is a query iff some given assembly defines it, it implements IRequest or is assignable to IRequest<>, and the attribute is defined on it or a base type |
| ServiceCollectionExtensions.ConstructAllSucceedsIff | src/MediatR.Extensions.AttributedBehaviors/ServiceCollectionExtensions.cs:24 | reading a type's attributes succeeds iff every recorded attribute can be constructed |
| ServiceCollectionExtensions.ConstructAllBuildsEach | src/MediatR.Extensions.AttributedBehaviors/ServiceCollectionExtensions.cs:24 | a successful read yields one attribute per recorded usage, position for position |
| ServiceCollectionExtensions.ConstructAllReportsFirstFailure | src/MediatR.Extensions.AttributedBehaviors/ServiceCollectionExtensions.cs:24 | a failed read reports the error of the first usage that cannot be constructed, all earlier ones building |
| ServiceCollectionExtensions.SortedAttributesAreStableSort | src/MediatR.Extensions.AttributedBehaviors/ServiceCollectionExtensions.cs:24 | the attributes are available iff every usage builds, and the error is otherwise the read's error. On success they are sorted by Order, a permutation of the declared attributes, and stable: for every order value, the attributes with that order keep their declaration order |
| ServiceCollectionExtensions.OneDescriptorPerAttribute | src/MediatR.Extensions.AttributedBehaviors/ServiceCollectionExtensions.cs:24-26 | a type whose attributes build contributes exactly as many descriptors as it has attributes, the same multiset as in declaration order, and each declared (InterfaceType, BehaviorType, ServiceLifetime) among them |
| ServiceCollectionExtensions.Descriptors | src/MediatR.Extensions.AttributedBehaviors/ServiceCollectionExtensions.cs:26 | one descriptor per attribute, position for position, with the attribute's interface as service type, its behavior as implementation and its lifetime |
| ServiceCollectionExtensions.DescriptorsAppend | src/MediatR.Extensions.AttributedBehaviors/ServiceCollectionExtensions.cs:24-27 | the descriptors of two lists of attributes are those of the first followed by those of the second |
| ServiceCollectionExtensions.SortedDescriptorsPermute | src/MediatR.Extensions.AttributedBehaviors/ServiceCollectionExtensions.cs:24-26 | ordering the attributes only rearranges the descriptors they produce |
| ServiceCollectionExtensions.AttributesPerTypeAppend | src/MediatR.Extensions.AttributedBehaviors/ServiceCollectionExtensions.cs:22-24 | the outcomes of two runs of types are those of the first run followed by those of the second |
| ServiceCollectionExtensions.Emit | src/MediatR.Extensions.AttributedBehaviors/ServiceCollectionExtensions.cs:22-28 | the pass ends without error iff every query type's attributes build |
| ServiceCollectionExtensions.EmitReportsFirstFailure | src/MediatR.Extensions.AttributedBehaviors/ServiceCollectionExtensions.cs:22-28 | the error of the pass is that of the first query type whose attributes cannot be built, every earlier type having built |
| ServiceCollectionExtensions.EmitStopsAtError | src/MediatR.Extensions.AttributedBehaviors/ServiceCollectionExtensions.cs:22-28 | once the types so far have failed, the remaining types change nothing |
| ServiceCollectionExtensions.EmitAppend | src/MediatR.Extensions.AttributedBehaviors/ServiceCollectionExtensions.cs:22-28 | the pass over two runs of types is the pass over the first run and, if that succeeds, then the pass over the second, descriptors concatenated |
| ServiceCollectionExtensions.TypeContributesOneRun | src/MediatR.Extensions.AttributedBehaviors/ServiceCollectionExtensions.cs:22-28 | a query type's descriptors form one contiguous run whose sorted order is its own, between the descriptors of the types before it and those of the types after it |
| ServiceCollectionExtensions.InheritedOnlyTypeAddsNothing | src/MediatR.Extensions.AttributedBehaviors/ServiceCollectionExtensions.cs:20-24 | a request type that qualifies only through an attribute on a base type adds no descriptor |
| ServiceCollectionExtensions.AddMediatRAttributedBehaviors | src/MediatR.Extensions.AttributedBehaviors/ServiceCollectionExtensions.cs:15-31 | the collection's new descriptors are the old ones followed by the pass's descriptors. The same collection is returned when the pass succeeds; otherwise the first configuration error is returned, with the descriptors added before it kept |
| ServiceCollectionExtensions.AddDescriptors | src/MediatR.Extensions.AttributedBehaviors/ServiceCollectionExtensions.cs:24-27 | the inner loop appends exactly the sorted attributes' descriptors, in order |
| ServiceCollectionExtensions.AddMediatRAttributedBehaviorsFromAssembly | src/MediatR.Extensions.AttributedBehaviors/ServiceCollectionExtensions.cs:12-13 | the single-assembly overload registers what the list overload registers for the one-element list |
| ServiceCollectionExtensions.RepeatedAssembliesChangeNothing | src/MediatR.Extensions.AttributedBehaviors/ServiceCollectionExtensions.cs:17 | appending assemblies that are already listed, at the end of the list, changes no registration (the general position is RegistrationsIgnoreLaterRepeat) |
| ServiceCollectionExtensions.RegistrationsIgnoreLaterRepeat | src/MediatR.Extensions.AttributedBehaviors/ServiceCollectionExtensions.cs:17 | an assembly listed again at any later position, before or after other assemblies, changes no registration |
| ServiceCollectionExtensions.RegistrationsOfDistinct | src/MediatR.Extensions.AttributedBehaviors/ServiceCollectionExtensions.cs:17 | registering the distinct assemblies of a list registers exactly what the list registers |
| ServiceCollectionExtensions.SameAssemblyTwice | src/MediatR.Extensions.AttributedBehaviors/ServiceCollectionExtensions.cs:17 | registering an assembly twice in one call registers it once |
| DependencyInjection.ServiceCollection.Add | src/MediatR.Extensions.AttributedBehaviors/ServiceCollectionExtensions.cs:26 | services.Add appends the descriptor at the end and changes nothing else |
| DependencyInjection.ServiceCollection.constructor | src/MediatR.Extensions.AttributedBehaviors.Tests/CustomLifetimeTests.cs:96 | a new service collection is empty |
| Linq.Distinct | src/MediatR.Extensions.AttributedBehaviors/ServiceCollectionExtensions.cs:17 | every element of the result occurs in the input, every element of the input occurs in the result, and no element occurs twice |
| Linq.DistinctIgnoresRepeats | src/MediatR.Extensions.AttributedBehaviors/ServiceCollectionExtensions.cs:17 | appending elements already present leaves Distinct unchanged |
| Linq.DistinctDropsLaterRepeat | src/MediatR.Extensions.AttributedBehaviors/ServiceCollectionExtensions.cs:17 | an element repeated anywhere after its first occurrence leaves Distinct unchanged |
| Linq.DistinctOfDistinct | src/MediatR.Extensions.AttributedBehaviors/ServiceCollectionExtensions.cs:17 | a sequence without repetitions is its own Distinct, so Distinct is idempotent |
| OrderBy.InsertByOrderPermutes | src/MediatR.Extensions.AttributedBehaviors/ServiceCollectionExtensions.cs:24 | inserting an attribute adds it and keeps every other attribute |
| OrderBy.InsertKeepsSorted | src/MediatR.Extensions.AttributedBehaviors/ServiceCollectionExtensions.cs:24 | inserting into a sequence sorted by Order keeps it sorted |
| OrderBy.InsertWithOrder | src/MediatR.Extensions.AttributedBehaviors/ServiceCollectionExtensions.cs:24 | the inserted attribute goes before every attribute with the same Order |
| OrderBy.SortByOrderIsSorted | src/MediatR.Extensions.AttributedBehaviors/ServiceCollectionExtensions.cs:24 | the sort's result is ascending in Order |
| OrderBy.SortByOrderPermutes | src/MediatR.Extensions.AttributedBehaviors/ServiceCollectionExtensions.cs:24 | the sort's result has the same multiset as its input |
| OrderBy.SortByOrderIsStable | src/MediatR.Extensions.AttributedBehaviors/ServiceCollectionExtensions.cs:24 | for each order value, the attributes with that order appear in the same sequence before and after the sort |
| OrderBy.SortByOrderIsStableOrder | src/MediatR.Extensions.AttributedBehaviors/ServiceCollectionExtensions.cs:24 | the sort is sorted, a permutation and stable |
| OrderBy.StableOrderIsUnique | src/MediatR.Extensions.AttributedBehaviors/ServiceCollectionExtensions.cs:24 | two sequences that are sorted by Order and agree on every order value's subsequence are equal |
| OrderBy.StableOrderIsSortByOrder | src/MediatR.Extensions.AttributedBehaviors/ServiceCollectionExtensions.cs:24 | any stable ordering by Order of the input is exactly the sort's result, so the sort is OrderBy |
| Scenarios.CustomOrderingRegistersFirstThenSecond | src/MediatR.Extensions.AttributedBehaviors.Tests/CustomOrderingTests.cs:12-13 | with SecondBehavior at order 1 written above FirstBehavior at order 0, FirstBehavior's descriptor is registered first, so it runs outermost ("First before" precedes "Second before") |
| Scenarios.MultipleBehaviorsRegisterInLineOrder | src/MediatR.Extensions.AttributedBehaviors.Tests/MultipleBehaviorsTests.cs:12-13 | without explicit orders OuterBehavior, on the upper line, is registered first and wraps the one below ("Outer before" precedes "Inner before") |
| Scenarios.CustomLifetimesAreKept | src/MediatR.Extensions.AttributedBehaviors.Tests/CustomLifetimeTests.cs:13-15 | TransientBehavior, ScopedBehavior and SingletonBehavior register with exactly the lifetimes their names say, in line order |
| Scenarios.SingleBehaviorRegistersOne | src/MediatR.Extensions.AttributedBehaviors.Tests/SingleBehaviorTests.cs:12 | one attribute with no optional argument registers exactly one Scoped descriptor for SingleBehavior on IPipelineBehavior<Ping, Pong> |
| Scenarios.AmbiguousBehaviorFails | src/MediatR.Extensions.AttributedBehaviors/MediatRBehaviorAttribute.cs:21 | a behavior class implementing IPipelineBehavior<,> twice makes the pass fail with the ambiguity error before anything is registered |
| Scenarios.DoubleBehaviorIsAmbiguous | src/MediatR.Extensions.AttributedBehaviors/MediatRBehaviorAttribute.cs:21 | the constructor refuses such a class with AmbiguousPipelineBehaviorInterface |
| Scenarios.OnlyPingQualifies | src/MediatR.Extensions.AttributedBehaviors/ServiceCollectionExtensions.cs:17-20 | in the modelled single-test assembly only the Ping request qualifies: Pong is no request, and the behavior classes carry no attribute |

## Left out

- Reflection is replaced by an explicit type table. Type identity, generic instantiation and
  the loading of assemblies are not modelled. A type's `interfaces` is taken to be the full
  list that `GetInterfaces()`/`ImplementedInterfaces` report, inherited ones included.
- `[CallerLineNumber]` is filled in by the compiler. The model takes the line as a parameter
  of `Declare`.
- The base-type relation is assumed acyclic, as the runtime guarantees. This is expressed by
  the handle order in `WellFormed`.
- Assemblies are compared by value (name and defined types). The runtime compares them by
  reference.
- LINQ's deferred execution is not modelled. The query is computed once before the loop,
  which gives the same result, because nothing in the loop changes the types.
- Exceptions are modelled as `Failure` results. `GetCustomAttributes` runs the attribute
  constructor, so a behavior type that has no `IPipelineBehavior<,>` interface, or has several,
  stops the pass there. This follows the code. Descriptors added for earlier request types stay
  in the collection, as they do when the exception escapes. The null-argument exceptions of
  .NET are not modelled.
- The constructor checks only that the interface's generic definition is `IPipelineBehavior<,>`
  (MediatRBehaviorAttribute.cs:21). It does not check that the interface is closed over the
  request it decorates, and neither does the model.
- The `MediatRBehaviorAttribute` usage is restricted to classes and may be repeated. The
  repetition is the sequence `behaviorAttributes` recorded per type. The class restriction is
  enforced by the compiler and is not modelled.
- Attribute inheritance: `Attribute.IsDefined` looks at base types, so a type qualifies through
  an attribute on a base class. `GetCustomAttributes(false)` then reads only the type's own
  attributes. The model does both (see `InheritedOnlyTypeAddsNothing`).
- How the container resolves, shares and disposes instances per lifetime is not modelled. The
  same goes for how MediatR nests the resolved behaviors around the handler. The model stops at
  the registered descriptors and their order, with the first one registered being the
  outermost.
- The lifetime checks of the tests (CustomLifetimeTests.cs:67, 79, 91) select descriptors whose
  service type is a behavior class. Every descriptor this pass adds has the
  `IPipelineBehavior<Ping, Pong>` interface as its service type, so none of them is selected
  and those checks say nothing about them. `Scenarios.CustomLifetimesAreKept` states the
  lifetimes the descriptors actually carry.
- Scenarios.OnlyPingQualifies, Scenarios.CustomOrderingRegistersFirstThenSecond,
  Scenarios.MultipleBehaviorsRegisterInLineOrder, Scenarios.CustomLifetimesAreKept,
  Scenarios.SingleBehaviorRegistersOne: each test's
  `Ping` is modelled alone, in an assembly holding just that Ping, its Pong and its behavior
  classes. In the repository the four test classes share one test assembly, which every test
  passes whole (CustomOrderingTests.cs:83-85, MultipleBehaviorsTests.cs:83-85,
  CustomLifetimeTests.cs:97-99). That assembly has four qualifying Pings, so the exact
  registration lists stated here are those of the reduced assembly. The order and lifetimes
  of one Ping's descriptors still carry over: by
  `ServiceCollectionExtensions.TypeContributesOneRun`, each qualifying type's sorted descriptors
  form one contiguous run, and the other Pings' descriptors come before or after it, never
  between.
- The handler, logger and mediator of the tests, and the `Send` call, are not modelled.
