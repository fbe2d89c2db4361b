/**
 * The registration pass: scan the distinct assemblies' types, keep the request types
 * that carry behavior attributes, and for each of them append one service descriptor
 * per attribute, in stable order of the attributes' Order.
 */
module ServiceCollectionExtensions {
  import opened Wrappers
  import opened DependencyInjection
  import opened Reflection
  import opened BehaviorAttribute
  import opened OrderBy
  import opened Linq

  // ---------------------------------------------------------------------------
  // Generic-ancestor matching
  // ---------------------------------------------------------------------------

  /** `t` implements an interface whose generic definition is `g`, or is itself an instance of `g`. */
  predicate MatchesDirectly(types: TypeTable, t: TypeId, g: TypeId)
    requires t in types
  {
    (exists i :: i in types[t].interfaces && i.genericDefinition == Some(g)) ||
    types[t].genericDefinition == Some(g)
  }

  /** IsAssignableToGenericType: `t` or one of its base types matches `g` directly. */
  predicate IsAssignableToGenericType(types: TypeTable, t: TypeId, g: TypeId)
    requires WellFormed(types) && t in types
    decreases t
  {
    MatchesDirectly(types, t, g) ||
    (types[t].baseType.Some? && IsAssignableToGenericType(types, types[t].baseType.value, g))
  }

  /** `t` followed by its base types, up to the root. */
  function BaseChain(types: TypeTable, t: TypeId): (chain: seq<TypeId>)
    requires WellFormed(types) && t in types
    ensures |chain| >= 1 && chain[0] == t
    ensures forall k :: 0 <= k < |chain| ==> chain[k] in types
    ensures forall k :: 0 <= k < |chain| - 1 ==> types[chain[k]].baseType == Some(chain[k + 1])
    ensures types[chain[|chain| - 1]].baseType.None?
    decreases t
  {
    match types[t].baseType
    case None => [t]
    case Some(b) => [t] + BaseChain(types, b)
  }

  /** A direct match anywhere on the base chain makes the type assignable. */
  lemma {:induction false} AncestorMatchMakesAssignable(types: TypeTable, t: TypeId, g: TypeId, k: nat)
    requires WellFormed(types) && t in types
    requires k < |BaseChain(types, t)| && MatchesDirectly(types, BaseChain(types, t)[k], g)
    ensures IsAssignableToGenericType(types, t, g)
    decreases t
  {
    if k > 0 {
      var b := types[t].baseType.value;
      assert BaseChain(types, t) == [t] + BaseChain(types, b);
      AncestorMatchMakesAssignable(types, b, g, k - 1);
    }
  }

  /** An assignable type has a direct match on its base chain; `k` is its position. */
  lemma {:induction false} AssignableHasMatchingAncestor(types: TypeTable, t: TypeId, g: TypeId) returns (k: nat)
    requires WellFormed(types) && t in types && IsAssignableToGenericType(types, t, g)
    ensures k < |BaseChain(types, t)| && MatchesDirectly(types, BaseChain(types, t)[k], g)
    decreases t
  {
    if MatchesDirectly(types, t, g) {
      k := 0;
    } else {
      var b := types[t].baseType.value;
      var j := AssignableHasMatchingAncestor(types, b, g);
      assert BaseChain(types, t) == [t] + BaseChain(types, b);
      k := j + 1;
    }
  }

  /** The recursion is the search of the base chain for a type that matches directly. */
  lemma AssignableIffAncestorMatches(types: TypeTable, t: TypeId, g: TypeId)
    requires WellFormed(types) && t in types
    ensures IsAssignableToGenericType(types, t, g) <==>
      exists k :: 0 <= k < |BaseChain(types, t)| && MatchesDirectly(types, BaseChain(types, t)[k], g)
  {
    var chain := BaseChain(types, t);
    if IsAssignableToGenericType(types, t, g) {
      var k := AssignableHasMatchingAncestor(types, t, g);
      assert MatchesDirectly(types, chain[k], g);
    }
    forall k | 0 <= k < |chain| && MatchesDirectly(types, chain[k], g)
      ensures IsAssignableToGenericType(types, t, g)
    {
      AncestorMatchMakesAssignable(types, t, g, k);
    }
  }

  // ---------------------------------------------------------------------------
  // The query: which types qualify
  // ---------------------------------------------------------------------------

  /** ImplementedInterfaces contains the non-generic IRequest. */
  predicate ImplementsIRequest(types: TypeTable, t: TypeId)
    requires t in types
  {
    exists i :: i in types[t].interfaces && i.id == IRequestType
  }

  predicate IsRequestType(types: TypeTable, t: TypeId)
    requires WellFormed(types) && t in types
  {
    ImplementsIRequest(types, t) || IsAssignableToGenericType(types, t, IRequestDefinition)
  }

  /**
   * Attribute.IsDefined(type, attributeType), whose inherit argument defaults to true:
   * the type or one of its base types carries a behavior attribute.
   */
  predicate HasBehaviorAttribute(types: TypeTable, t: TypeId)
    requires WellFormed(types) && t in types
    decreases t
  {
    |types[t].behaviorAttributes| > 0 ||
    (types[t].baseType.Some? && HasBehaviorAttribute(types, types[t].baseType.value))
  }

  predicate Qualifies(types: TypeTable, t: TypeId)
    requires WellFormed(types) && t in types
  {
    IsRequestType(types, t) && HasBehaviorAttribute(types, t)
  }

  /** SelectMany(a => a.DefinedTypes). */
  function AllDefinedTypes(assemblies: seq<Assembly>): (r: seq<TypeId>)
    ensures forall t :: t in r <==> exists a :: a in assemblies && t in a.definedTypes
  {
    if assemblies == [] then []
    else
      assert forall a :: a in assemblies <==> a == assemblies[0] || a in assemblies[1..];
      assemblies[0].definedTypes + AllDefinedTypes(assemblies[1..])
  }

  /** Where(...): the qualifying types of `ts`, in their order. */
  function WhereQualifies(types: TypeTable, ts: seq<TypeId>): (r: seq<TypeId>)
    requires WellFormed(types) && forall t :: t in ts ==> t in types
    ensures forall t :: t in r <==> t in ts && Qualifies(types, t)
  {
    if ts == [] then []
    else
      assert forall t :: t in ts <==> t == ts[0] || t in ts[1..];
      (if Qualifies(types, ts[0]) then [ts[0]] else []) + WhereQualifies(types, ts[1..])
  }

  /** SelectMany keeps the assemblies' order: the types of a list of assemblies, then of the next. */
  lemma {:induction false} AllDefinedTypesAppend(xs: seq<Assembly>, ys: seq<Assembly>)
    ensures AllDefinedTypes(xs + ys) == AllDefinedTypes(xs) + AllDefinedTypes(ys)
  {
    if xs == [] {
      assert xs + ys == ys;
    } else {
      assert (xs + ys)[0] == xs[0] && (xs + ys)[1..] == xs[1..] + ys;
      AllDefinedTypesAppend(xs[1..], ys);
    }
  }

  /** Where keeps the scan order: filtering two runs of types is filtering each run in turn. */
  lemma {:induction false} WhereQualifiesAppend(types: TypeTable, xs: seq<TypeId>, ys: seq<TypeId>)
    requires WellFormed(types)
    requires forall t :: t in xs ==> t in types
    requires forall t :: t in ys ==> t in types
    ensures WhereQualifies(types, xs + ys) == WhereQualifies(types, xs) + WhereQualifies(types, ys)
  {
    if xs == [] {
      assert xs + ys == ys;
    } else {
      var head := if Qualifies(types, xs[0]) then [xs[0]] else [];
      var rest, others := WhereQualifies(types, xs[1..]), WhereQualifies(types, ys);
      assert (xs + ys)[0] == xs[0] && (xs + ys)[1..] == xs[1..] + ys;
      assert WhereQualifies(types, xs + ys) == head + WhereQualifies(types, xs[1..] + ys);
      WhereQualifiesAppend(types, xs[1..], ys);
      AppendAssociative(head, rest, others);
    }
  }

  /** queriesWithAttributes: the request types with behavior attributes of the distinct assemblies. */
  function QueriesWithAttributes(types: TypeTable, assemblies: seq<Assembly>): (r: seq<TypeId>)
    requires WellFormed(types) && DefinesKnownTypes(types, assemblies)
    ensures forall t :: t in r ==> t in types
    ensures forall t :: t in r <==>
      (exists a :: a in assemblies && t in a.definedTypes) && t in types && Qualifies(types, t)
  {
    var distinct := Distinct(assemblies);
    assert forall a :: a in distinct <==> a in assemblies by {
      forall a ensures a in distinct <==> a in assemblies {
        if a in distinct { var i :| 0 <= i < |distinct| && distinct[i] == a; }
        if a in assemblies { var i :| 0 <= i < |assemblies| && assemblies[i] == a; }
      }
    }
    WhereQualifies(types, AllDefinedTypes(distinct))
  }

  // ---------------------------------------------------------------------------
  // What one qualifying type contributes
  // ---------------------------------------------------------------------------

  /**
   * GetCustomAttributes: builds every attribute recorded on the type, in metadata
   * order; the first one that cannot be built makes the whole call fail.
   */
  function ConstructAll(types: TypeTable, data: seq<BehaviorAttributeData>): (r: Result<seq<MediatRBehaviorAttribute>, ConfigError>)
    requires forall d :: d in data ==> d.behaviorType in types
  {
    if data == [] then Success([])
    else
      assert forall d :: d in data[1..] ==> d in data;
      match Construct(types, data[0])
      case Failure(e) => Failure(e)
      case Success(a) =>
        var rest := ConstructAll(types, data[1..]);
        if rest.Failure? then Failure(rest.error) else Success([a] + rest.value)
  }

  /** Building succeeds exactly when every declaration builds. */
  lemma {:induction false} ConstructAllSucceedsIff(types: TypeTable, data: seq<BehaviorAttributeData>)
    requires forall d :: d in data ==> d.behaviorType in types
    ensures ConstructAll(types, data).Success? <==> forall k :: 0 <= k < |data| ==> Construct(types, data[k]).Success?
  {
    if data != [] {
      assert forall d :: d in data[1..] ==> d in data;
      ConstructAllSucceedsIff(types, data[1..]);
      assert forall k :: 1 <= k < |data| ==> data[k] == data[1..][k - 1];
    }
  }

  /** A successful build yields one attribute per declaration, in declaration order. */
  lemma {:induction false} ConstructAllBuildsEach(types: TypeTable, data: seq<BehaviorAttributeData>)
    requires forall d :: d in data ==> d.behaviorType in types
    requires ConstructAll(types, data).Success?
    ensures |ConstructAll(types, data).value| == |data|
    ensures forall k :: 0 <= k < |data| ==> Construct(types, data[k]) == Success(ConstructAll(types, data).value[k])
  {
    if data != [] {
      assert forall d :: d in data[1..] ==> d in data;
      var r, rest := ConstructAll(types, data), ConstructAll(types, data[1..]);
      var a := Construct(types, data[0]).value;
      assert rest.Success? && r.value == [a] + rest.value;
      ConstructAllBuildsEach(types, data[1..]);
      forall k | 0 <= k < |data| ensures Construct(types, data[k]) == Success(r.value[k]) {
        if k > 0 {
          assert data[k] == data[1..][k - 1];
          assert r.value[k] == rest.value[k - 1];
        }
      }
    }
  }

  /** The error reported is that of the first declaration that cannot be built. */
  lemma {:induction false} ConstructAllReportsFirstFailure(types: TypeTable, data: seq<BehaviorAttributeData>)
    requires forall d :: d in data ==> d.behaviorType in types
    ensures ConstructAll(types, data).Failure? ==>
      exists k :: 0 <= k < |data| && Construct(types, data[k]) == Failure(ConstructAll(types, data).error) &&
        forall j :: 0 <= j < k ==> Construct(types, data[j]).Success?
  {
    if data != [] && Construct(types, data[0]).Success? {
      assert forall d :: d in data[1..] ==> d in data;
      ConstructAllReportsFirstFailure(types, data[1..]);
      var rest := ConstructAll(types, data[1..]);
      if rest.Failure? {
        var k :| 0 <= k < |data[1..]| && Construct(types, data[1..][k]) == Failure(rest.error) &&
          forall j :: 0 <= j < k ==> Construct(types, data[1..][j]).Success?;
        assert data[1..][k] == data[k + 1];
        forall j | 0 <= j < k + 1 ensures Construct(types, data[j]).Success? {
          if j > 0 { assert data[j] == data[1..][j - 1]; }
        }
      }
    }
  }

  /** The type's own attributes, built and then stably sorted by Order. */
  function SortedAttributes(types: TypeTable, t: TypeId): Result<seq<MediatRBehaviorAttribute>, ConfigError>
    requires WellFormed(types) && t in types
  {
    match ConstructAll(types, types[t].behaviorAttributes)
    case Failure(e) => Failure(e)
    case Success(declared) => Success(SortByOrder(declared))
  }

  /**
   * OrderBy(attr => attr.Order) over GetCustomAttributes: the type's attributes are
   * available exactly when every declaration builds, and are then sorted by Order, a
   * permutation of the declared ones, and stable (equal orders keep declaration order).
   */
  lemma SortedAttributesAreStableSort(types: TypeTable, t: TypeId)
    requires WellFormed(types) && t in types
    ensures SortedAttributes(types, t).Success? <==>
      forall k :: 0 <= k < |types[t].behaviorAttributes| ==> Construct(types, types[t].behaviorAttributes[k]).Success?
    ensures SortedAttributes(types, t).Failure? ==>
      SortedAttributes(types, t).error == ConstructAll(types, types[t].behaviorAttributes).error
    ensures SortedAttributes(types, t).Success? ==>
      var declared := ConstructAll(types, types[t].behaviorAttributes).value;
      var sorted := SortedAttributes(types, t).value;
      IsSortedByOrder(sorted) && multiset(sorted) == multiset(declared) &&
      forall key :: WithOrder(sorted, key) == WithOrder(declared, key)
  {
    ConstructAllSucceedsIff(types, types[t].behaviorAttributes);
    if SortedAttributes(types, t).Success? {
      SortByOrderIsStableOrder(ConstructAll(types, types[t].behaviorAttributes).value);
    }
  }

  /** new ServiceDescriptor(attr.InterfaceType, attr.BehaviorType, attr.ServiceLifetime). */
  function ToDescriptor(a: MediatRBehaviorAttribute): ServiceDescriptor<TypeId> {
    ServiceDescriptor(a.interfaceType.id, a.behaviorType, a.serviceLifetime)
  }

  /** One descriptor per attribute, position for position. */
  function Descriptors(attrs: seq<MediatRBehaviorAttribute>): (ds: seq<ServiceDescriptor<TypeId>>)
    ensures |ds| == |attrs|
    ensures forall k :: 0 <= k < |attrs| ==> ds[k] == ToDescriptor(attrs[k])
  {
    if attrs == [] then [] else [ToDescriptor(attrs[0])] + Descriptors(attrs[1..])
  }

  // ---------------------------------------------------------------------------
  // The whole pass, as a specification
  // ---------------------------------------------------------------------------

  /** The descriptors appended, and the error that stopped the pass, if any. */
  datatype Emission = Emission(descriptors: seq<ServiceDescriptor<TypeId>>, error: Option<ConfigError>)

  /** What each query type contributes: its sorted attributes, or the error building them. */
  function AttributesPerType(types: TypeTable, queries: seq<TypeId>): (rs: seq<Result<seq<MediatRBehaviorAttribute>, ConfigError>>)
    requires WellFormed(types) && forall q :: q in queries ==> q in types
    ensures |rs| == |queries|
    ensures forall k :: 0 <= k < |queries| ==> rs[k] == SortedAttributes(types, queries[k])
  {
    seq(|queries|, k requires 0 <= k < |queries| => SortedAttributes(types, queries[k]))
  }

  /**
   * The nested foreach: the descriptors of each type in turn, stopping at the first
   * type whose attributes could not be built.
   */
  function Emit(rs: seq<Result<seq<MediatRBehaviorAttribute>, ConfigError>>): (e: Emission)
    ensures e.error.None? <==> forall k :: 0 <= k < |rs| ==> rs[k].Success?
    decreases |rs|
  {
    if rs == [] then Emission([], None)
    else
      var n := |rs| - 1;
      var prev := Emit(rs[..n]);
      assert forall j :: 0 <= j < n ==> rs[..n][j] == rs[j];
      if prev.error.Some? then prev
      else match rs[n]
        case Failure(err) => Emission(prev.descriptors, Some(err))
        case Success(sorted) => Emission(prev.descriptors + Descriptors(sorted), None)
  }

  /** The pass over one more type: nothing more after an error, otherwise that type's outcome. */
  lemma EmitSnoc(rs: seq<Result<seq<MediatRBehaviorAttribute>, ConfigError>>, x: Result<seq<MediatRBehaviorAttribute>, ConfigError>)
    ensures Emit(rs).error.Some? ==> Emit(rs + [x]) == Emit(rs)
    ensures Emit(rs).error.None? && x.Failure? ==> Emit(rs + [x]) == Emission(Emit(rs).descriptors, Some(x.error))
    ensures Emit(rs).error.None? && x.Success? ==>
      Emit(rs + [x]) == Emission(Emit(rs).descriptors + Descriptors(x.value), None)
  {
    assert (rs + [x])[..|rs|] == rs;
    assert (rs + [x])[|rs|] == x;
  }

  /** The pass reports the error of the first type whose attributes could not be built. */
  lemma {:induction false} EmitReportsFirstFailure(rs: seq<Result<seq<MediatRBehaviorAttribute>, ConfigError>>)
    ensures Emit(rs).error.Some? ==>
      exists k :: 0 <= k < |rs| && rs[k] == Failure(Emit(rs).error.value) && forall j :: 0 <= j < k ==> rs[j].Success?
    decreases |rs|
  {
    if rs != [] {
      var n := |rs| - 1;
      var init := rs[..n];
      EmitReportsFirstFailure(init);
      assert rs == init + [rs[n]];
      EmitSnoc(init, rs[n]);
      if Emit(init).error.Some? {
        var k :| 0 <= k < n && init[k] == Failure(Emit(init).error.value) &&
          forall j :: 0 <= j < k ==> init[j].Success?;
        assert rs[k] == init[k];
        forall j | 0 <= j < k ensures rs[j].Success? {
          assert rs[j] == init[j];
        }
      } else if rs[n].Failure? {
        forall j | 0 <= j < n ensures rs[j].Success? {
          assert rs[j] == init[j];
        }
      }
    }
  }

  /** The registrations the pass makes for `assemblies`. */
  function Registrations(types: TypeTable, assemblies: seq<Assembly>): Emission
    requires WellFormed(types) && DefinesKnownTypes(types, assemblies)
  {
    Emit(AttributesPerType(types, QueriesWithAttributes(types, assemblies)))
  }

  // ---------------------------------------------------------------------------
  // The registration methods
  // ---------------------------------------------------------------------------

  /**
   * AddMediatRAttributedBehaviors over a list of assemblies: appends the descriptors to
   * `services` and returns the same collection, or fails with the configuration error
   * of the first attribute that cannot be built (descriptors appended before stay).
   */
  method AddMediatRAttributedBehaviors(services: ServiceCollection<TypeId>, types: TypeTable, assemblies: seq<Assembly>)
    returns (r: Result<ServiceCollection<TypeId>, ConfigError>)
    requires WellFormed(types) && DefinesKnownTypes(types, assemblies)
    modifies services
    ensures services.descriptors == old(services.descriptors) + Registrations(types, assemblies).descriptors
    ensures Registrations(types, assemblies).error.None? ==> r == Success(services)
    ensures Registrations(types, assemblies).error.Some? ==> r == Failure(Registrations(types, assemblies).error.value)
  {
    var queries := QueriesWithAttributes(types, assemblies);
    ghost var rs := AttributesPerType(types, queries);
    assert Registrations(types, assemblies) == Emit(rs);
    for i := 0 to |queries|
      invariant Emit(rs[..i]).error.None?
      invariant services.descriptors == old(services.descriptors) + Emit(rs[..i]).descriptors
    {
      var attrs := SortedAttributes(types, queries[i]);
      assert attrs == rs[i];
      EmitStep(rs, i);
      if attrs.Failure? {
        EmitStopsAtError(rs, i + 1);
        return Failure(attrs.error);
      }
      ghost var done := Emit(rs[..i]).descriptors;
      AddDescriptors(services, attrs.value);
      AppendAssociative(old(services.descriptors), done, Descriptors(attrs.value));
    }
    assert rs[..|queries|] == rs;
    return Success(services);
  }

  /** The inner foreach: one services.Add per sorted attribute, in order. */
  method AddDescriptors(services: ServiceCollection<TypeId>, sorted: seq<MediatRBehaviorAttribute>)
    modifies services
    ensures services.descriptors == old(services.descriptors) + Descriptors(sorted)
  {
    for j := 0 to |sorted|
      invariant services.descriptors == old(services.descriptors) + Descriptors(sorted[..j])
    {
      assert Descriptors(sorted[..j + 1]) == Descriptors(sorted[..j]) + [ToDescriptor(sorted[j])];
      services.Add(ToDescriptor(sorted[j]));
    }
    assert sorted[..|sorted|] == sorted;
  }

  /** The single-assembly overload: the list overload on a one-element list. */
  method AddMediatRAttributedBehaviorsFromAssembly(services: ServiceCollection<TypeId>, types: TypeTable, assembly: Assembly)
    returns (r: Result<ServiceCollection<TypeId>, ConfigError>)
    requires WellFormed(types) && DefinesKnownTypes(types, [assembly])
    modifies services
    ensures services.descriptors == old(services.descriptors) + Registrations(types, [assembly]).descriptors
    ensures Registrations(types, [assembly]).error.None? ==> r == Success(services)
    ensures Registrations(types, [assembly]).error.Some? ==> r == Failure(Registrations(types, [assembly]).error.value)
  {
    r := AddMediatRAttributedBehaviors(services, types, [assembly]);
  }

  // ---------------------------------------------------------------------------
  // Properties of the pass
  // ---------------------------------------------------------------------------

  /**
   * Regrouping a concatenation. Dafny knows this fact, but stating it inside the proofs
   * about Emit makes them far more expensive to check, so it is proved here on its own.
   */
  lemma AppendAssociative<T>(a: seq<T>, b: seq<T>, c: seq<T>)
    ensures (a + b) + c == a + (b + c)
  {
  }

  /** Emitting one more type, after a prefix that succeeded. */
  lemma EmitStep(rs: seq<Result<seq<MediatRBehaviorAttribute>, ConfigError>>, i: nat)
    requires i < |rs| && Emit(rs[..i]).error.None?
    ensures rs[i].Failure? ==> Emit(rs[..i + 1]) == Emission(Emit(rs[..i]).descriptors, Some(rs[i].error))
    ensures rs[i].Success? ==> Emit(rs[..i + 1]) == Emission(Emit(rs[..i]).descriptors + Descriptors(rs[i].value), None)
  {
    assert rs[..i + 1][..i] == rs[..i];
  }

  /** Once a prefix of the types has failed, the remaining types add nothing. */
  lemma {:induction false} EmitStopsAtError(rs: seq<Result<seq<MediatRBehaviorAttribute>, ConfigError>>, n: nat)
    requires n <= |rs| && Emit(rs[..n]).error.Some?
    ensures Emit(rs) == Emit(rs[..n])
    decreases |rs| - n
  {
    if n < |rs| {
      var m := |rs| - 1;
      assert rs[..m][..n] == rs[..n];
      EmitStopsAtError(rs[..m], n);
    } else {
      assert rs[..n] == rs;
    }
  }

  /** Descriptors distribute over concatenation. */
  lemma DescriptorsAppend(a: seq<MediatRBehaviorAttribute>, b: seq<MediatRBehaviorAttribute>)
    ensures Descriptors(a + b) == Descriptors(a) + Descriptors(b)
  {
    assert |Descriptors(a + b)| == |Descriptors(a) + Descriptors(b)|;
    forall k | 0 <= k < |a + b| ensures Descriptors(a + b)[k] == (Descriptors(a) + Descriptors(b))[k] {
      if k < |a| { assert (a + b)[k] == a[k]; } else { assert (a + b)[k] == b[k - |a|]; }
    }
  }

  /** The descriptors of a list with a given first attribute. */
  lemma DescriptorsCons(x: MediatRBehaviorAttribute, s: seq<MediatRBehaviorAttribute>)
    ensures multiset(Descriptors([x] + s)) == multiset{ToDescriptor(x)} + multiset(Descriptors(s))
  {
    DescriptorsAppend([x], s);
    assert Descriptors([x]) == [ToDescriptor(x)];
  }

  lemma {:induction false} InsertDescriptorsPermutes(a: MediatRBehaviorAttribute, s: seq<MediatRBehaviorAttribute>)
    ensures multiset(Descriptors(InsertByOrder(a, s))) == multiset(Descriptors(s)) + multiset{ToDescriptor(a)}
  {
    if s == [] || a.order <= s[0].order {
      assert InsertByOrder(a, s) == [a] + s;
      DescriptorsCons(a, s);
    } else {
      var rest := InsertByOrder(a, s[1..]);
      assert InsertByOrder(a, s) == [s[0]] + rest;
      assert s == [s[0]] + s[1..];
      InsertDescriptorsPermutes(a, s[1..]);
      DescriptorsCons(s[0], rest);
      DescriptorsCons(s[0], s[1..]);
    }
  }

  /** One insertion step of the sort keeps the descriptors of the list it extends. */
  lemma InsertStepPermutes(x: MediatRBehaviorAttribute, tail: seq<MediatRBehaviorAttribute>, sortedTail: seq<MediatRBehaviorAttribute>)
    requires multiset(Descriptors(sortedTail)) == multiset(Descriptors(tail))
    ensures multiset(Descriptors(InsertByOrder(x, sortedTail))) == multiset(Descriptors([x] + tail))
  {
    InsertDescriptorsPermutes(x, sortedTail);
    DescriptorsCons(x, tail);
  }

  /** Sorting only rearranges the descriptors: the same ones, as many times each. */
  lemma {:induction false} SortedDescriptorsPermute(s: seq<MediatRBehaviorAttribute>)
    ensures multiset(Descriptors(SortByOrder(s))) == multiset(Descriptors(s))
  {
    if s != [] {
      SortedDescriptorsPermute(s[1..]);
      InsertStepPermutes(s[0], s[1..], SortByOrder(s[1..]));
      assert s == [s[0]] + s[1..];
    }
  }

  /**
   * A qualifying type whose attributes all build contributes exactly one descriptor per
   * attribute recorded on it: as many descriptors as attributes, the same multiset as
   * the descriptors in declaration order, and each declared attribute's
   * (InterfaceType, BehaviorType, ServiceLifetime) among them.
   */
  lemma OneDescriptorPerAttribute(types: TypeTable, t: TypeId)
    requires WellFormed(types) && t in types && SortedAttributes(types, t).Success?
    ensures |Descriptors(SortedAttributes(types, t).value)| == |types[t].behaviorAttributes|
    ensures multiset(Descriptors(SortedAttributes(types, t).value)) ==
            multiset(Descriptors(ConstructAll(types, types[t].behaviorAttributes).value))
    ensures forall k :: 0 <= k < |types[t].behaviorAttributes| ==>
              var d := types[t].behaviorAttributes[k];
              && Construct(types, d).Success?
              && ServiceDescriptor(Construct(types, d).value.interfaceType.id, d.behaviorType, d.serviceLifetime)
                 in Descriptors(SortedAttributes(types, t).value)
  {
    var data := types[t].behaviorAttributes;
    var declared := ConstructAll(types, data).value;
    var sorted := SortedAttributes(types, t).value;
    ConstructAllBuildsEach(types, data);
    SortByOrderPermutes(declared);
    assert multiset(sorted) == multiset(declared);
    assert |sorted| == |multiset(sorted)| == |multiset(declared)| == |declared|;
    SortedDescriptorsPermute(declared);
    assert multiset(Descriptors(sorted)) == multiset(Descriptors(declared));
    forall k | 0 <= k < |data|
      ensures ServiceDescriptor(Construct(types, data[k]).value.interfaceType.id, data[k].behaviorType, data[k].serviceLifetime)
              in Descriptors(sorted)
    {
      var a := declared[k];
      assert Construct(types, data[k]) == Success(a);
      assert Descriptors(declared)[k] == ToDescriptor(a);
      assert ToDescriptor(a) in multiset(Descriptors(declared));
    }
  }

  /** The pass over two runs of types is the pass over the first, then over the second. */
  lemma {:induction false} EmitAppend(rs1: seq<Result<seq<MediatRBehaviorAttribute>, ConfigError>>,
                                      rs2: seq<Result<seq<MediatRBehaviorAttribute>, ConfigError>>)
    ensures Emit(rs1).error.Some? ==> Emit(rs1 + rs2) == Emit(rs1)
    ensures Emit(rs1).error.None? ==>
      Emit(rs1 + rs2) == Emission(Emit(rs1).descriptors + Emit(rs2).descriptors, Emit(rs2).error)
    decreases |rs2|
  {
    if rs2 == [] {
      assert rs1 + rs2 == rs1;
      assert Emit(rs1).descriptors + [] == Emit(rs1).descriptors;
    } else {
      var n := |rs2| - 1;
      var init, last := rs2[..n], rs2[n];
      EmitAppend(rs1, init);
      assert rs2 == init + [last];
      assert rs1 + rs2 == (rs1 + init) + [last];
      EmitSnoc(rs1 + init, last);
      EmitSnoc(init, last);
      if Emit(rs1).error.None? && Emit(init).error.None? && last.Success? {
        AppendAssociative(Emit(rs1).descriptors, Emit(init).descriptors, Descriptors(last.value));
      }
    }
  }

  /** Building the attributes of two runs of types is building those of each run. */
  lemma AttributesPerTypeAppend(types: TypeTable, q1: seq<TypeId>, q2: seq<TypeId>)
    requires WellFormed(types)
    requires forall q :: q in q1 ==> q in types
    requires forall q :: q in q2 ==> q in types
    ensures AttributesPerType(types, q1 + q2) == AttributesPerType(types, q1) + AttributesPerType(types, q2)
  {
    var r, r1, r2 := AttributesPerType(types, q1 + q2), AttributesPerType(types, q1), AttributesPerType(types, q2);
    forall k | 0 <= k < |r| ensures r[k] == (r1 + r2)[k] {
      if k < |q1| { assert (q1 + q2)[k] == q1[k]; } else { assert (q1 + q2)[k] == q2[k - |q1|]; }
    }
  }

  /**
   * The descriptors of one query type form one contiguous run, between those of the
   * types before it and those of the types after it.
   */
  lemma TypeContributesOneRun(types: TypeTable, before: seq<TypeId>, t: TypeId, after: seq<TypeId>)
    requires WellFormed(types) && t in types
    requires forall q :: q in before ==> q in types
    requires forall q :: q in after ==> q in types
    requires Emit(AttributesPerType(types, before)).error.None? && SortedAttributes(types, t).Success?
    ensures Emit(AttributesPerType(types, before + [t] + after)).descriptors ==
              Emit(AttributesPerType(types, before)).descriptors +
              Descriptors(SortedAttributes(types, t).value) +
              Emit(AttributesPerType(types, after)).descriptors
  {
    var rb, rt, ra := AttributesPerType(types, before), AttributesPerType(types, [t]), AttributesPerType(types, after);
    AttributesPerTypeAppend(types, before, [t]);
    AttributesPerTypeAppend(types, before + [t], after);
    assert rt[..0] == [] && rt[..1] == rt;
    EmitStep(rt, 0);
    EmitAppend(rb, rt);
    EmitAppend(rb + rt, ra);
  }

  /**
   * A request type that qualifies only through an attribute on a base type contributes
   * nothing: GetCustomAttributes(false) reads the type's own attributes, and it has none.
   */
  lemma InheritedOnlyTypeAddsNothing(types: TypeTable, before: seq<TypeId>, t: TypeId, after: seq<TypeId>)
    requires WellFormed(types) && t in types && types[t].behaviorAttributes == []
    requires forall q :: q in before ==> q in types
    requires forall q :: q in after ==> q in types
    requires Emit(AttributesPerType(types, before)).error.None?
    ensures Emit(AttributesPerType(types, before + [t] + after)).descriptors ==
              Emit(AttributesPerType(types, before)).descriptors + Emit(AttributesPerType(types, after)).descriptors
  {
    assert SortedAttributes(types, t) == Success([]);
    TypeContributesOneRun(types, before, t, after);
    assert Emit(AttributesPerType(types, before)).descriptors + Descriptors([]) == Emit(AttributesPerType(types, before)).descriptors;
  }

  /** Listing assemblies that are already listed changes no registration (Distinct). */
  lemma RepeatedAssembliesChangeNothing(types: TypeTable, assemblies: seq<Assembly>, repeated: seq<Assembly>)
    requires WellFormed(types) && DefinesKnownTypes(types, assemblies)
    requires forall i :: 0 <= i < |repeated| ==> repeated[i] in assemblies
    ensures DefinesKnownTypes(types, assemblies + repeated)
    ensures Registrations(types, assemblies + repeated) == Registrations(types, assemblies)
  {
    forall a, t | a in assemblies + repeated && t in a.definedTypes ensures t in types {
      assert a in assemblies;
    }
    DistinctIgnoresRepeats(assemblies, repeated);
  }

  /** An assembly listed again anywhere after its first listing changes no registration. */
  lemma RegistrationsIgnoreLaterRepeat(types: TypeTable, p: seq<Assembly>, a: Assembly, q: seq<Assembly>)
    requires WellFormed(types) && DefinesKnownTypes(types, p + q) && a in p
    ensures DefinesKnownTypes(types, p + [a] + q)
    ensures Registrations(types, p + [a] + q) == Registrations(types, p + q)
  {
    forall b, t | b in p + [a] + q && t in b.definedTypes ensures t in types {
      assert b in p + q;
    }
    DistinctDropsLaterRepeat(p, a, q);
  }

  /** Registering the distinct assemblies of a list is registering the list. */
  lemma RegistrationsOfDistinct(types: TypeTable, assemblies: seq<Assembly>)
    requires WellFormed(types) && DefinesKnownTypes(types, assemblies)
    ensures DefinesKnownTypes(types, Distinct(assemblies))
    ensures Registrations(types, Distinct(assemblies)) == Registrations(types, assemblies)
  {
    var distinct := Distinct(assemblies);
    forall b, t | b in distinct && t in b.definedTypes ensures t in types {
      var i :| 0 <= i < |distinct| && distinct[i] == b;
    }
    DistinctOfDistinct(distinct);
  }

  /** Registering an assembly twice is registering it once. */
  lemma SameAssemblyTwice(types: TypeTable, assembly: Assembly)
    requires WellFormed(types) && DefinesKnownTypes(types, [assembly])
    ensures DefinesKnownTypes(types, [assembly, assembly])
    ensures Registrations(types, [assembly, assembly]) == Registrations(types, [assembly])
  {
    RepeatedAssembliesChangeNothing(types, [assembly], [assembly]);
    assert [assembly] + [assembly] == [assembly, assembly];
  }
}
