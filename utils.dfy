/** The two total classifier predicates every copy decision rests on. */
module Utils {
  import opened Types

  /** Whether a value of type t must be copied through the recursive copier rather than assigned:
      true for every reference type except string. Reference types are exactly the arrays and the
      declared non-value types, so string is the one reference type left out and is shared, like a
      value, because it is immutable. */
  function IsRefTypeExceptString(t: TypeDesc): (r: bool)
    ensures r <==> t.ArrayType? || (t.Declared? && !t.isValueType)
    ensures t == StringType ==> !r
    ensures IsValueType(t) ==> !r
  {
    !IsValueType(t) && t != StringType
  }

  /** Whether t is treated as a container: enumerable, except string. Every array is a container;
      a declared type is one exactly when it implements IEnumerable, which every well-formed
      ICollection of its first type argument does. */
  function IsIEnumerableExceptString(t: TypeDesc): (r: bool)
    ensures r <==> t.ArrayType? || (t.Declared? && t.enumerable)
    ensures t == StringType ==> !r
    ensures WellFormed(t) && t.Declared? && t.collectionOfFirstArg ==> r
  {
    IsAssignableToIEnumerable(t) && t != StringType
  }

  /** String is enumerable, yet never classified as a container nor copied recursively. */
  lemma StringIsEnumerableButShared()
    ensures IsAssignableToIEnumerable(StringType)
    ensures !IsIEnumerableExceptString(StringType)
    ensures !IsRefTypeExceptString(StringType)
  {
  }

  /** A container that is not a value type (every array, every class or interface collection)
      is itself copied recursively when it appears as an element or a property. */
  lemma ReferenceContainersAreCopiedRecursively(t: TypeDesc)
    requires IsIEnumerableExceptString(t) && !IsValueType(t)
    ensures IsRefTypeExceptString(t)
  {
  }
}
