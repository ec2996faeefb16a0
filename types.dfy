/** Type descriptors: the facts about a runtime type that the copier asks of reflection. */
module Types {

  /** A runtime type as the copier sees it.
      - StringType: System.String, a reference type that is enumerable (over its chars).
      - ArrayType(elem): a one-dimensional array `elem[]`.
      - Declared(...): any other class, struct or interface, with the answers reflection gives:
          isValueType          -- Type.IsValueType
          args                 -- Type.GetGenericArguments(), in order
          enumerable           -- typeof(IEnumerable).IsAssignableFrom(type)
          collectionOfFirstArg -- typeof(ICollection<args[0]>).IsAssignableFrom(type) */
  datatype TypeDesc =
    | StringType
    | ArrayType(elem: TypeDesc)
    | Declared(name: string, isValueType: bool, args: seq<TypeDesc>, enumerable: bool, collectionOfFirstArg: bool)

  /** The facts a real type system guarantees: a type can only be an ICollection of its first
      generic argument if it has one, and ICollection<T> extends IEnumerable. */
  predicate WellFormed(t: TypeDesc)
    decreases t
  {
    match t
    case StringType => true
    case ArrayType(e) => WellFormed(e)
    case Declared(_, _, args, enumerable, coll) =>
      (coll ==> |args| > 0 && enumerable) &&
      forall a :: a in args ==> WellFormed(a)
  }

  /** Type.IsValueType. Arrays and strings are reference types. */
  predicate IsValueType(t: TypeDesc)
  {
    t.Declared? && t.isValueType
  }

  /** typeof(IEnumerable).IsAssignableFrom(t): every array and every string is enumerable. */
  predicate IsAssignableToIEnumerable(t: TypeDesc)
  {
    match t
    case StringType => true
    case ArrayType(_) => true
    case Declared(_, _, _, enumerable, _) => enumerable
  }

  /** Type.GetGenericArguments(): arrays and strings have none. */
  function GenericArguments(t: TypeDesc): seq<TypeDesc>
  {
    if t.Declared? then t.args else []
  }
}
