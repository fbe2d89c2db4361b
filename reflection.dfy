/**
 * An abstract type table standing in for .NET reflection: for every type its generic
 * type definition, the interfaces it implements, its base type and the
 * MediatRBehaviorAttribute usages recorded on it, plus assemblies listing the types
 * they define.
 */
module Reflection {
  import opened Wrappers
  import opened DependencyInjection

  /** A type handle. */
  type TypeId = nat

  /** The non-generic marker interface IRequest. */
  const IRequestType: TypeId := 1
  /** The open generic interface IRequest<>. */
  const IRequestDefinition: TypeId := 2
  /** The open generic interface IPipelineBehavior<,>. */
  const IPipelineBehaviorDefinition: TypeId := 3

  /**
   * A reference to a (possibly closed generic) type: its handle and, when it is a
   * generic type, its generic type definition.
   */
  datatype TypeRef = TypeRef(id: TypeId, genericDefinition: Option<TypeId>)

  /**
   * The constructor arguments of one MediatRBehaviorAttribute usage as they are
   * recorded in metadata, after the compiler has filled in the defaults.
   */
  datatype BehaviorAttributeData = BehaviorAttributeData(behaviorType: TypeId, serviceLifetime: ServiceLifetime, order: int)

  datatype TypeInfo = TypeInfo(
    genericDefinition: Option<TypeId>,
    interfaces: seq<TypeRef>,
    baseType: Option<TypeId>,
    behaviorAttributes: seq<BehaviorAttributeData>)

  type TypeTable = map<TypeId, TypeInfo>

  datatype Assembly = Assembly(name: string, definedTypes: seq<TypeId>)

  /**
   * The table is closed (base types and behavior types are in it) and the base-type
   * relation is acyclic: a base type always has a smaller handle than the type
   * deriving from it.
   */
  predicate WellFormed(types: TypeTable) {
    forall t :: t in types ==>
      (types[t].baseType.Some? ==> types[t].baseType.value < t && types[t].baseType.value in types) &&
      (forall u :: u in types[t].behaviorAttributes ==> u.behaviorType in types)
  }

  /** Every type an assembly defines is described by the table. */
  predicate DefinesKnownTypes(types: TypeTable, assemblies: seq<Assembly>) {
    forall a, t :: a in assemblies && t in a.definedTypes ==> t in types
  }
}
