/**
 * The runtime's view of types, as far as the container core uses it: hash codes are
 * supplied from outside (see Registrations.Env), everything else is given here.
 */
module Types {
  import opened Wrappers

  /**
   * A type: either a type definition (a plain type when `arity` is 0, an open generic
   * definition such as `Func<,>` otherwise) or a closed generic type built from a
   * definition and its type arguments (`Func<int, string>`).
   */
  datatype ClrType =
    | TypeDef(name: string, fullName: string, arity: nat)
    | Constructed(definition: ClrType, arguments: seq<ClrType>)

  /** Closed generic types carry as many arguments as their definition has parameters. */
  ghost predicate WellFormed(t: ClrType) {
    match t
    case TypeDef(_, _, _) => true
    case Constructed(d, args) =>
      && d.TypeDef?
      && 0 < d.arity == |args|
      && forall a :: a in args ==> WellFormed(a)
  }

  /** `Type.IsConstructedGenericType` */
  predicate IsConstructedGenericType(t: ClrType) {
    t.Constructed?
  }

  /** `Type.Name`: a closed generic type carries the short name of its definition (`Func`2`). */
  function Name(t: ClrType): string {
    match t
    case TypeDef(n, _, _) => n
    case Constructed(d, _) => Name(d)
  }

  /** `Type.FullName`; for a closed generic type only the definition's part is kept. */
  function FullName(t: ClrType): string {
    match t
    case TypeDef(_, f, _) => f
    case Constructed(d, _) => FullName(d)
  }

  /** `Type.GetGenericArguments()` of a closed type; a type definition yields none here. */
  function GenericArguments(t: ClrType): seq<ClrType> {
    match t
    case TypeDef(_, _, _) => []
    case Constructed(_, args) => args
  }

  /**
   * The request descriptor of one dependency edge: the requested type, the optional
   * dependency name, the type that owns the injection site and its custom attributes.
   */
  datatype TypeInformation = TypeInformation(
    serviceType: ClrType,
    parentType: Option<ClrType>,
    dependencyName: Option<string>,
    customAttributes: seq<ClrType>)
  {
    /** `TypeInformation.Clone(type)`: the same request, retargeted to another type. */
    function Clone(t: ClrType): (r: TypeInformation)
      ensures r.serviceType == t
      ensures r.parentType == parentType && r.dependencyName == dependencyName
      ensures r.customAttributes == customAttributes
    {
      this.(serviceType := t)
    }
  }
}
