/**
 * MediatRBehaviorAttribute: an immutable declaration, attached to a request type,
 * naming a pipeline behavior, its lifetime and its order. The capability interface is
 * derived from the behavior type when the declaration is built, and building fails
 * unless the behavior type implements IPipelineBehavior<,> exactly once.
 */
module BehaviorAttribute {
  import opened Wrappers
  import opened DependencyInjection
  import opened Reflection

  /** The four get-only properties of a constructed attribute. */
  datatype MediatRBehaviorAttribute = MediatRBehaviorAttribute(
    behaviorType: TypeId,
    interfaceType: TypeRef,
    serviceLifetime: ServiceLifetime,
    order: int)

  /** Why a declaration cannot be built (an InvalidOperationException from Single in the source). */
  datatype ConfigError =
    | NoPipelineBehaviorInterface(behaviorType: TypeId)
    | AmbiguousPipelineBehaviorInterface(behaviorType: TypeId)

  predicate IsPipelineBehaviorInterface(i: TypeRef) {
    i.genericDefinition == Some(IPipelineBehaviorDefinition)
  }

  /** The positions, in increasing order, of the IPipelineBehavior<,> interfaces in `interfaces`. */
  function PipelineBehaviorPositions(interfaces: seq<TypeRef>): (r: seq<nat>)
    ensures forall a :: 0 <= a < |r| ==> r[a] < |interfaces| && IsPipelineBehaviorInterface(interfaces[r[a]])
    ensures forall k :: 0 <= k < |interfaces| && IsPipelineBehaviorInterface(interfaces[k]) ==> k in r
    ensures forall a, b :: 0 <= a < b < |r| ==> r[a] < r[b]
  {
    if interfaces == [] then []
    else
      var n := |interfaces| - 1;
      var init := PipelineBehaviorPositions(interfaces[..n]);
      if IsPipelineBehaviorInterface(interfaces[n]) then init + [n] else init
  }

  /** No interface in `ifaces` is an IPipelineBehavior<,>. */
  predicate NoPipelineBehavior(ifaces: seq<TypeRef>) {
    forall k :: 0 <= k < |ifaces| ==> !IsPipelineBehaviorInterface(ifaces[k])
  }

  /** Exactly one position of `ifaces` holds an IPipelineBehavior<,>. */
  predicate SinglePipelineBehavior(ifaces: seq<TypeRef>) {
    exists k :: 0 <= k < |ifaces| && IsPipelineBehaviorInterface(ifaces[k]) &&
      forall j :: 0 <= j < |ifaces| && IsPipelineBehaviorInterface(ifaces[j]) ==> j == k
  }

  /** Two different positions of `ifaces` hold an IPipelineBehavior<,>. */
  predicate SeveralPipelineBehaviors(ifaces: seq<TypeRef>) {
    exists j, k :: 0 <= j < k < |ifaces| && IsPipelineBehaviorInterface(ifaces[j]) && IsPipelineBehaviorInterface(ifaces[k])
  }

  /** No matching position: only the first case holds. */
  lemma NoPositions(ifaces: seq<TypeRef>)
    requires |PipelineBehaviorPositions(ifaces)| == 0
    ensures NoPipelineBehavior(ifaces) && !SinglePipelineBehavior(ifaces) && !SeveralPipelineBehaviors(ifaces)
  {
    var positions := PipelineBehaviorPositions(ifaces);
    forall k | 0 <= k < |ifaces| ensures !IsPipelineBehaviorInterface(ifaces[k]) {
      assert k !in positions;
    }
  }

  /** One matching position: only the second case holds. */
  lemma OnePosition(ifaces: seq<TypeRef>)
    requires |PipelineBehaviorPositions(ifaces)| == 1
    ensures !NoPipelineBehavior(ifaces) && SinglePipelineBehavior(ifaces) && !SeveralPipelineBehaviors(ifaces)
  {
    var positions := PipelineBehaviorPositions(ifaces);
    var k := positions[0];
    assert IsPipelineBehaviorInterface(ifaces[k]);
    forall j | 0 <= j < |ifaces| && IsPipelineBehaviorInterface(ifaces[j]) ensures j == k {
      assert j in positions;
    }
  }

  /** Two or more matching positions: only the third case holds. */
  lemma ManyPositions(ifaces: seq<TypeRef>)
    requires |PipelineBehaviorPositions(ifaces)| >= 2
    ensures !NoPipelineBehavior(ifaces) && !SinglePipelineBehavior(ifaces) && SeveralPipelineBehaviors(ifaces)
  {
    var positions := PipelineBehaviorPositions(ifaces);
    var j, k := positions[0], positions[1];
    assert j < k && IsPipelineBehaviorInterface(ifaces[j]) && IsPipelineBehaviorInterface(ifaces[k]);
  }

  /** The number of matching positions decides which of the three cases holds. */
  lemma PositionsDecideCase(ifaces: seq<TypeRef>)
    ensures |PipelineBehaviorPositions(ifaces)| == 0 <==> NoPipelineBehavior(ifaces)
    ensures |PipelineBehaviorPositions(ifaces)| == 1 <==> SinglePipelineBehavior(ifaces)
    ensures |PipelineBehaviorPositions(ifaces)| >= 2 <==> SeveralPipelineBehaviors(ifaces)
  {
    var n := |PipelineBehaviorPositions(ifaces)|;
    if n == 0 {
      NoPositions(ifaces);
    } else if n == 1 {
      OnePosition(ifaces);
    } else {
      ManyPositions(ifaces);
    }
  }

  /**
   * The attribute's constructor. `order` is the value the call site supplies: an
   * explicit argument or the caller's line number (see Declare). What the number of
   * matching interfaces means is stated by ConstructorOutcome.
   */
  function NewBehaviorAttribute(types: TypeTable, behaviorType: TypeId,
                                serviceLifetime: ServiceLifetime := Scoped, order: int)
    : (r: Result<MediatRBehaviorAttribute, ConfigError>)
    requires behaviorType in types
    ensures var count := |PipelineBehaviorPositions(types[behaviorType].interfaces)|;
      && (r.Success? <==> count == 1)
      && (r.Failure? ==> r.error == if count == 0 then NoPipelineBehaviorInterface(behaviorType)
                                    else AmbiguousPipelineBehaviorInterface(behaviorType))
    ensures r.Success? ==>
      r.value.behaviorType == behaviorType && r.value.serviceLifetime == serviceLifetime && r.value.order == order
    ensures r.Success? ==>
      r.value.interfaceType in types[behaviorType].interfaces && IsPipelineBehaviorInterface(r.value.interfaceType)
  {
    var ifaces := types[behaviorType].interfaces;
    var positions := PipelineBehaviorPositions(ifaces);
    if |positions| == 0 then
      Failure(NoPipelineBehaviorInterface(behaviorType))
    else if |positions| == 1 then
      assert positions[0] in positions;
      Success(MediatRBehaviorAttribute(behaviorType, ifaces[positions[0]], serviceLifetime, order))
    else
      Failure(AmbiguousPipelineBehaviorInterface(behaviorType))
  }

  /**
   * Single(i => i is an IPipelineBehavior<,>): construction succeeds exactly when one
   * interface matches; it fails with NoPipelineBehaviorInterface when none matches and
   * with AmbiguousPipelineBehaviorInterface when two or more do.
   */
  lemma ConstructorOutcome(types: TypeTable, behaviorType: TypeId, serviceLifetime: ServiceLifetime, order: int)
    requires behaviorType in types
    ensures NewBehaviorAttribute(types, behaviorType, serviceLifetime, order).Success? <==>
      SinglePipelineBehavior(types[behaviorType].interfaces)
    ensures NewBehaviorAttribute(types, behaviorType, serviceLifetime, order) == Failure(NoPipelineBehaviorInterface(behaviorType)) <==>
      NoPipelineBehavior(types[behaviorType].interfaces)
    ensures NewBehaviorAttribute(types, behaviorType, serviceLifetime, order) == Failure(AmbiguousPipelineBehaviorInterface(behaviorType)) <==>
      SeveralPipelineBehaviors(types[behaviorType].interfaces)
  {
    var r := NewBehaviorAttribute(types, behaviorType, serviceLifetime, order);
    var ifaces := types[behaviorType].interfaces;
    var count := |PipelineBehaviorPositions(ifaces)|;
    assert r.Success? <==> count == 1;
    assert r == Failure(NoPipelineBehaviorInterface(behaviorType)) <==> count == 0;
    assert r == Failure(AmbiguousPipelineBehaviorInterface(behaviorType)) <==> count >= 2;
    PositionsDecideCase(ifaces);
  }

  /** On success the derived InterfaceType is the only IPipelineBehavior<,> interface of the behavior type. */
  lemma ConstructorInterfaceIsUnique(types: TypeTable, behaviorType: TypeId, serviceLifetime: ServiceLifetime, order: int)
    requires behaviorType in types
    ensures var r := NewBehaviorAttribute(types, behaviorType, serviceLifetime, order);
      var ifaces := types[behaviorType].interfaces;
      r.Success? ==> forall j :: 0 <= j < |ifaces| && IsPipelineBehaviorInterface(ifaces[j]) ==> ifaces[j] == r.value.interfaceType
  {
    var r := NewBehaviorAttribute(types, behaviorType, serviceLifetime, order);
    var ifaces := types[behaviorType].interfaces;
    var positions := PipelineBehaviorPositions(ifaces);
    if |positions| == 1 {
      var k := positions[0];
      assert r.value.interfaceType == ifaces[k];
      forall j | 0 <= j < |ifaces| && IsPipelineBehaviorInterface(ifaces[j]) ensures ifaces[j] == ifaces[k] {
        assert j in positions;
      }
    }
  }

  /** Builds the attribute a metadata entry describes, as GetCustomAttributes does. */
  function Construct(types: TypeTable, data: BehaviorAttributeData): (r: Result<MediatRBehaviorAttribute, ConfigError>)
    requires data.behaviorType in types
  {
    NewBehaviorAttribute(types, data.behaviorType, data.serviceLifetime, data.order)
  }

  /**
   * What the compiler records for `[MediatRBehavior(behaviorType, ...)]` written on
   * source line `line`: an omitted lifetime is Scoped and an omitted order is the
   * line number.
   */
  function Declare(behaviorType: TypeId, line: int,
                   serviceLifetime: ServiceLifetime := Scoped, order: Option<int> := None)
    : (d: BehaviorAttributeData)
    ensures d.behaviorType == behaviorType && d.serviceLifetime == serviceLifetime
    ensures order.Some? ==> d.order == order.value
    ensures order.None? ==> d.order == line
  {
    BehaviorAttributeData(behaviorType, serviceLifetime, if order.Some? then order.value else line)
  }

  /** Omitting both optional arguments gives a Scoped declaration ordered by its line. */
  lemma DeclareDefaults(behaviorType: TypeId, line: int)
    ensures Declare(behaviorType, line) == BehaviorAttributeData(behaviorType, Scoped, line)
  {
  }
}
