/**
 * The surface of the dependency-injection container that the registrar writes to:
 * the lifetime enumeration, a service descriptor and a service collection to which
 * descriptors are appended in call order. Instance sharing and resolution belong to
 * the container and are not part of this model.
 */
module DependencyInjection {

  datatype ServiceLifetime = Singleton | Scoped | Transient

  /** One registration: the service type, the implementation type and its lifetime. */
  datatype ServiceDescriptor<Type> = ServiceDescriptor(serviceType: Type, implementationType: Type, lifetime: ServiceLifetime)

  /** A mutable, insertion-ordered list of descriptors. */
  class ServiceCollection<Type> {
    var descriptors: seq<ServiceDescriptor<Type>>

    constructor ()
      ensures descriptors == []
    {
      descriptors := [];
    }

    method Add(d: ServiceDescriptor<Type>)
      modifies this
      ensures descriptors == old(descriptors) + [d]
    {
      descriptors := descriptors + [d];
    }
  }
}
