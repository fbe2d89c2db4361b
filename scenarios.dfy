/**
 * The request types of the repository's four test classes, written out as type tables, and
 * what the registration pass makes of them.
 */
module Scenarios {
  import opened Wrappers
  import opened DependencyInjection
  import opened Reflection
  import opened BehaviorAttribute
  import opened OrderBy
  import opened Linq
  import opened ServiceCollectionExtensions

  // Handles of the test types (0..3 are the MediatR interfaces of the reflection module).
  const Ping: TypeId := 10
  const Pong: TypeId := 11
  const FirstBehavior: TypeId := 12
  const SecondBehavior: TypeId := 13
  const ThirdBehavior: TypeId := 14

  // The same three handles under the names of the behavior classes of each test:
  // CustomOrderingTests uses FirstBehavior and SecondBehavior as they are,
  // MultipleBehaviorsTests has an outer and an inner behavior, and CustomLifetimeTests has
  // one behavior per lifetime.
  const OuterBehavior: TypeId := FirstBehavior
  const InnerBehavior: TypeId := SecondBehavior
  const TransientBehavior: TypeId := FirstBehavior
  const ScopedBehavior: TypeId := SecondBehavior
  const SingletonBehavior: TypeId := ThirdBehavior
  // SingleBehaviorTests has one behavior.
  const SingleBehavior: TypeId := FirstBehavior

  /** IRequest<Pong>. */
  const RequestOfPong: TypeRef := TypeRef(20, Some(IRequestDefinition))
  /** IPipelineBehavior<Ping, Pong>. */
  const PipelineOfPing: TypeRef := TypeRef(21, Some(IPipelineBehaviorDefinition))

  /** A behavior class implementing IPipelineBehavior<Ping, Pong> and nothing else. */
  const BehaviorClass: TypeInfo := TypeInfo(None, [PipelineOfPing], None, [])

  /**
   * A test assembly's types: one Ping request carrying `attributes`, its Pong response
   * and three behaviors, the first of them described by `first`.
   */
  function TestTypesWith(attributes: seq<BehaviorAttributeData>, first: TypeInfo): (types: TypeTable)
    ensures Ping in types && types[Ping].behaviorAttributes == attributes
    ensures FirstBehavior in types && types[FirstBehavior] == first
  {
    map[Ping := TypeInfo(None, [RequestOfPong], None, attributes),
        Pong := TypeInfo(None, [], None, []),
        FirstBehavior := first,
        SecondBehavior := BehaviorClass,
        ThirdBehavior := BehaviorClass]
  }

  /** The test types with three plain behavior classes. */
  function TestTypes(attributes: seq<BehaviorAttributeData>): (types: TypeTable)
    ensures types == TestTypesWith(attributes, BehaviorClass)
  {
    TestTypesWith(attributes, BehaviorClass)
  }

  const TestAssembly: Assembly := Assembly("Tests", [Ping, Pong, FirstBehavior, SecondBehavior, ThirdBehavior])

  /** The attributes of the tests only name the three behavior classes. */
  predicate NamesTestBehaviors(attributes: seq<BehaviorAttributeData>) {
    forall k :: 0 <= k < |attributes| ==>
      attributes[k].behaviorType in {FirstBehavior, SecondBehavior, ThirdBehavior}
  }

  /** Every behavior class of the tests builds an attribute on IPipelineBehavior<Ping, Pong>. */
  lemma BehaviorClassBuilds(types: TypeTable, b: TypeId, lifetime: ServiceLifetime, order: int)
    requires b in types && types[b] == BehaviorClass
    ensures NewBehaviorAttribute(types, b, lifetime, order) ==
            Success(MediatRBehaviorAttribute(b, PipelineOfPing, lifetime, order))
  {
    assert PipelineBehaviorPositions(types[b].interfaces) == [0] by {
      assert types[b].interfaces == [] + [PipelineOfPing];
    }
  }

  /** The test types form a well-formed table describing every type of the test assembly. */
  lemma TestTypesWellFormed(attributes: seq<BehaviorAttributeData>, first: TypeInfo)
    requires NamesTestBehaviors(attributes)
    requires first.baseType.None? && first.behaviorAttributes == []
    ensures WellFormed(TestTypesWith(attributes, first)) && DefinesKnownTypes(TestTypesWith(attributes, first), [TestAssembly])
  {
    var types := TestTypesWith(attributes, first);
    forall u | u in attributes ensures u.behaviorType in types {
      var k :| 0 <= k < |attributes| && attributes[k] == u;
    }
  }

  /** Ping implements IRequest<Pong> and carries attributes. */
  lemma PingQualifies(attributes: seq<BehaviorAttributeData>, first: TypeInfo)
    requires |attributes| > 0 && WellFormed(TestTypesWith(attributes, first))
    ensures Qualifies(TestTypesWith(attributes, first), Ping)
  {
    var types := TestTypesWith(attributes, first);
    assert RequestOfPong in types[Ping].interfaces;
    assert MatchesDirectly(types, Ping, IRequestDefinition);
  }

  /** Only Ping is a request type carrying behavior attributes. */
  lemma OnlyPingQualifies(attributes: seq<BehaviorAttributeData>, first: TypeInfo)
    requires |attributes| > 0 && NamesTestBehaviors(attributes)
    requires first.baseType.None? && first.behaviorAttributes == []
    ensures WellFormed(TestTypesWith(attributes, first)) && DefinesKnownTypes(TestTypesWith(attributes, first), [TestAssembly])
    ensures QueriesWithAttributes(TestTypesWith(attributes, first), [TestAssembly]) == [Ping]
  {
    var types := TestTypesWith(attributes, first);
    TestTypesWellFormed(attributes, first);
    PingQualifies(attributes, first);
    assert Distinct([TestAssembly]) == [TestAssembly] by {
      assert [TestAssembly] == [] + [TestAssembly];
    }
    assert AllDefinedTypes([TestAssembly]) == TestAssembly.definedTypes by {
      assert AllDefinedTypes([TestAssembly][1..]) == [];
    }
    var ds := TestAssembly.definedTypes;
    assert WhereQualifies(types, ds[1..]) == [] by {
      assert !HasBehaviorAttribute(types, Pong);
      assert !HasBehaviorAttribute(types, FirstBehavior);
      assert !HasBehaviorAttribute(types, SecondBehavior);
      assert !HasBehaviorAttribute(types, ThirdBehavior);
      assert WhereQualifies(types, ds[4..]) == [];
      assert WhereQualifies(types, ds[3..]) == [];
      assert WhereQualifies(types, ds[2..]) == [];
    }
  }

  /** The pass over the test assembly is the descriptors of Ping's sorted attributes. */
  lemma RegistrationsOfTestAssembly(attributes: seq<BehaviorAttributeData>, first: TypeInfo)
    requires |attributes| > 0 && NamesTestBehaviors(attributes)
    requires first.baseType.None? && first.behaviorAttributes == []
    ensures WellFormed(TestTypesWith(attributes, first)) && DefinesKnownTypes(TestTypesWith(attributes, first), [TestAssembly])
    ensures var types := TestTypesWith(attributes, first);
      Registrations(types, [TestAssembly]) ==
        match SortedAttributes(types, Ping)
        case Success(sorted) => Emission(Descriptors(sorted), None)
        case Failure(e) => Emission([], Some(e))
  {
    var types := TestTypesWith(attributes, first);
    OnlyPingQualifies(attributes, first);
    var rs := AttributesPerType(types, [Ping]);
    assert rs == [SortedAttributes(types, Ping)];
    assert rs[..0] == [] && rs[..1] == rs;
    EmitStep(rs, 0);
  }

  /** The attributes a declaration list builds when every behavior is a plain behavior class. */
  function Built(attributes: seq<BehaviorAttributeData>): (r: seq<MediatRBehaviorAttribute>)
    ensures |r| == |attributes|
  {
    seq(|attributes|, k requires 0 <= k < |attributes| =>
      MediatRBehaviorAttribute(attributes[k].behaviorType, PipelineOfPing, attributes[k].serviceLifetime, attributes[k].order))
  }

  /** Every attribute naming a plain behavior class builds, on IPipelineBehavior<Ping, Pong>. */
  lemma PlainBehaviorsBuild(attributes: seq<BehaviorAttributeData>)
    requires NamesTestBehaviors(attributes)
    ensures forall d :: d in attributes ==> d.behaviorType in TestTypes(attributes)
    ensures ConstructAll(TestTypes(attributes), attributes) == Success(Built(attributes))
  {
    var types := TestTypes(attributes);
    forall d | d in attributes ensures d.behaviorType in types {
      var k :| 0 <= k < |attributes| && attributes[k] == d;
    }
    forall k | 0 <= k < |attributes|
      ensures Construct(types, attributes[k]) == Success(Built(attributes)[k])
    {
      BehaviorClassBuilds(types, attributes[k].behaviorType, attributes[k].serviceLifetime, attributes[k].order);
    }
    var r := ConstructAll(types, attributes);
    ConstructAllSucceedsIff(types, attributes);
    ConstructAllBuildsEach(types, attributes);
    assert forall k :: 0 <= k < |attributes| ==> r.value[k] == Built(attributes)[k];
    assert r.value == Built(attributes);
  }

  /** With plain behavior classes only, the pass registers the sorted built attributes. */
  lemma PlainRegistrations(attributes: seq<BehaviorAttributeData>)
    requires |attributes| > 0 && NamesTestBehaviors(attributes)
    ensures TestRegistrations(attributes, BehaviorClass) == Emission(Descriptors(SortByOrder(Built(attributes))), None)
  {
    RegistrationsOfTestAssembly(attributes, BehaviorClass);
    PlainBehaviorsBuild(attributes);
  }

  /** Sorting one attribute keeps it. */
  lemma SortOne(x: MediatRBehaviorAttribute)
    ensures SortByOrder([x]) == [x]
  {
    assert [x][1..] == [];
    assert SortByOrder([x]) == InsertByOrder(x, []);
  }

  /** Sorting two attributes that are out of order swaps them. */
  lemma SortSwapsTwo(x: MediatRBehaviorAttribute, y: MediatRBehaviorAttribute)
    requires y.order < x.order
    ensures SortByOrder([x, y]) == [y, x]
  {
    assert [x, y][1..] == [y];
    SortOne(y);
    assert InsertByOrder(x, [y]) == [y] + InsertByOrder(x, []);
  }

  /** Sorting two attributes that are in order keeps them. */
  lemma SortKeepsTwo(x: MediatRBehaviorAttribute, y: MediatRBehaviorAttribute)
    requires x.order <= y.order
    ensures SortByOrder([x, y]) == [x, y]
  {
    assert [x, y][1..] == [y];
    SortOne(y);
    assert InsertByOrder(x, [y]) == [x] + [y];
  }

  /** Sorting three attributes that are in order keeps them. */
  lemma SortKeepsThree(x: MediatRBehaviorAttribute, y: MediatRBehaviorAttribute, z: MediatRBehaviorAttribute)
    requires x.order <= y.order <= z.order
    ensures SortByOrder([x, y, z]) == [x, y, z]
  {
    SortKeepsTwo(y, z);
    assert [x, y, z][1..] == [y, z];
    assert InsertByOrder(x, [y, z]) == [x] + [y, z];
  }

  /** What the registration pass makes of the test assembly. */
  function TestRegistrations(attributes: seq<BehaviorAttributeData>, first: TypeInfo): Emission
    requires NamesTestBehaviors(attributes)
    requires first.baseType.None? && first.behaviorAttributes == []
  {
    TestTypesWellFormed(attributes, first);
    Registrations(TestTypesWith(attributes, first), [TestAssembly])
  }

  /** The attributes on Ping in CustomOrderingTests, lines 12 and 13. */
  const CustomOrdering: seq<BehaviorAttributeData> :=
    [Declare(SecondBehavior, 12, order := Some(1)), Declare(FirstBehavior, 13, order := Some(0))]

  /**
   * SecondBehavior with order 1 is declared above FirstBehavior with order 0;
   * FirstBehavior is registered first, so it is the outer behavior.
   */
  lemma CustomOrderingRegistersFirstThenSecond()
    ensures NamesTestBehaviors(CustomOrdering)
    ensures TestRegistrations(CustomOrdering, BehaviorClass) ==
            Emission([ServiceDescriptor(PipelineOfPing.id, FirstBehavior, Scoped),
                      ServiceDescriptor(PipelineOfPing.id, SecondBehavior, Scoped)], None)
  {
    var second := MediatRBehaviorAttribute(SecondBehavior, PipelineOfPing, Scoped, 1);
    var first := MediatRBehaviorAttribute(FirstBehavior, PipelineOfPing, Scoped, 0);
    PlainRegistrations(CustomOrdering);
    assert Built(CustomOrdering) == [second, first];
    SortSwapsTwo(second, first);
    assert Descriptors([first, second]) == [ToDescriptor(first), ToDescriptor(second)];
  }

  /** The attributes on Ping in MultipleBehaviorsTests, lines 12 and 13, without an order. */
  const MultipleBehaviors: seq<BehaviorAttributeData> :=
    [Declare(OuterBehavior, 12), Declare(InnerBehavior, 13)]

  /**
   * With the default order the order is the source line, so the behavior declared on
   * the upper line is registered first and wraps the one below it.
   */
  lemma MultipleBehaviorsRegisterInLineOrder()
    ensures NamesTestBehaviors(MultipleBehaviors)
    ensures TestRegistrations(MultipleBehaviors, BehaviorClass) ==
            Emission([ServiceDescriptor(PipelineOfPing.id, OuterBehavior, Scoped),
                      ServiceDescriptor(PipelineOfPing.id, InnerBehavior, Scoped)], None)
  {
    var outer := MediatRBehaviorAttribute(OuterBehavior, PipelineOfPing, Scoped, 12);
    var inner := MediatRBehaviorAttribute(InnerBehavior, PipelineOfPing, Scoped, 13);
    PlainRegistrations(MultipleBehaviors);
    assert Built(MultipleBehaviors) == [outer, inner];
    SortKeepsTwo(outer, inner);
    assert Descriptors([outer, inner]) == [ToDescriptor(outer), ToDescriptor(inner)];
  }

  /** The attributes on Ping in CustomLifetimeTests, lines 13 to 15, with explicit lifetimes. */
  const CustomLifetimes: seq<BehaviorAttributeData> :=
    [Declare(TransientBehavior, 13, Transient), Declare(ScopedBehavior, 14, Scoped), Declare(SingletonBehavior, 15, Singleton)]

  /** The three attributes CustomLifetimes builds, in declaration order. */
  lemma CustomLifetimesBuild()
    ensures Built(CustomLifetimes) == [MediatRBehaviorAttribute(TransientBehavior, PipelineOfPing, Transient, 13),
                                       MediatRBehaviorAttribute(ScopedBehavior, PipelineOfPing, Scoped, 14),
                                       MediatRBehaviorAttribute(SingletonBehavior, PipelineOfPing, Singleton, 15)]
  {
  }

  /** The descriptors of three attributes. */
  lemma DescriptorsOfThree(x: MediatRBehaviorAttribute, y: MediatRBehaviorAttribute, z: MediatRBehaviorAttribute)
    ensures Descriptors([x, y, z]) == [ToDescriptor(x), ToDescriptor(y), ToDescriptor(z)]
  {
  }

  /**
   * Every behavior keeps its declared lifetime, in line order. Every descriptor's
   * service type is IPipelineBehavior<Ping, Pong>, none is a behavior class.
   */
  lemma CustomLifetimesAreKept()
    ensures NamesTestBehaviors(CustomLifetimes)
    ensures TestRegistrations(CustomLifetimes, BehaviorClass) ==
            Emission([ServiceDescriptor(PipelineOfPing.id, TransientBehavior, Transient),
                      ServiceDescriptor(PipelineOfPing.id, ScopedBehavior, Scoped),
                      ServiceDescriptor(PipelineOfPing.id, SingletonBehavior, Singleton)], None)
  {
    var t := MediatRBehaviorAttribute(TransientBehavior, PipelineOfPing, Transient, 13);
    var s := MediatRBehaviorAttribute(ScopedBehavior, PipelineOfPing, Scoped, 14);
    var g := MediatRBehaviorAttribute(SingletonBehavior, PipelineOfPing, Singleton, 15);
    PlainRegistrations(CustomLifetimes);
    CustomLifetimesBuild();
    SortKeepsThree(t, s, g);
    DescriptorsOfThree(t, s, g);
  }

  /** The attribute on Ping in SingleBehaviorTests, line 12, with no optional argument. */
  const Single: seq<BehaviorAttributeData> := [Declare(SingleBehavior, 12)]

  /** One behavior with the defaults registers one Scoped descriptor for it. */
  lemma SingleBehaviorRegistersOne()
    ensures NamesTestBehaviors(Single)
    ensures TestRegistrations(Single, BehaviorClass) ==
            Emission([ServiceDescriptor(PipelineOfPing.id, SingleBehavior, Scoped)], None)
  {
    var a := MediatRBehaviorAttribute(SingleBehavior, PipelineOfPing, Scoped, 12);
    PlainRegistrations(Single);
    assert Built(Single) == [a];
    SortOne(a);
    assert Descriptors([a]) == [ToDescriptor(a)];
  }

  /** A behavior class implementing IPipelineBehavior<,> for two different pairs of types. */
  const DoubleBehaviorClass: TypeInfo :=
    TypeInfo(None, [PipelineOfPing, TypeRef(22, Some(IPipelineBehaviorDefinition))], None, [])

  /**
   * Declaring such a class makes the attribute constructor fail (Single finds more
   * than one match), and with it the pass, before anything is registered.
   */
  lemma AmbiguousBehaviorFails()
    ensures NamesTestBehaviors([Declare(FirstBehavior, 12)])
    ensures TestRegistrations([Declare(FirstBehavior, 12)], DoubleBehaviorClass) ==
            Emission([], Some(AmbiguousPipelineBehaviorInterface(FirstBehavior)))
  {
    var attributes := [Declare(FirstBehavior, 12)];
    var types := TestTypesWith(attributes, DoubleBehaviorClass);
    RegistrationsOfTestAssembly(attributes, DoubleBehaviorClass);
    DoubleBehaviorIsAmbiguous(types, 12);
    assert attributes[0] == BehaviorAttributeData(FirstBehavior, Scoped, 12);
    assert ConstructAll(types, attributes) == Failure(AmbiguousPipelineBehaviorInterface(FirstBehavior));
  }

  /** The constructor refuses a behavior class that implements IPipelineBehavior<,> twice. */
  lemma DoubleBehaviorIsAmbiguous(types: TypeTable, order: int)
    requires FirstBehavior in types && types[FirstBehavior] == DoubleBehaviorClass
    ensures NewBehaviorAttribute(types, FirstBehavior, Scoped, order) == Failure(AmbiguousPipelineBehaviorInterface(FirstBehavior))
  {
    var ifaces := types[FirstBehavior].interfaces;
    assert IsPipelineBehaviorInterface(ifaces[0]) && IsPipelineBehaviorInterface(ifaces[1]);
    assert SeveralPipelineBehaviors(ifaces);
    ConstructorOutcome(types, FirstBehavior, Scoped, order);
  }
}
