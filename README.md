# DeepCopier container-copy layer, in Dafny

DeepCopier deep-copies .NET objects. For each pair of source and target types, it builds and
caches a copy routine from expression trees. This project models the layer that routine uses for
containers, and the type classifier that layer rests on:

- **Type classifier** (`Utils`). Two total predicates over a type descriptor:
  - "reference type other than string": elements of such a type go through the recursive copier.
  - "enumerable other than string": such a type is treated as a container.
- **Strategy selection** (`EnumerableCopier.SelectCopyMethod`). This models `GetMethondInfo`:
  - an array gets the array strategy for its element type;
  - a generic type that is an `ICollection<>` of its first type argument gets the collection
    strategy;
  - every other type gets the unsupported-type error, which names that type.
- **Array copy** (`EnumerableCopier.CopyArray`). Allocates a new array of the source's length and
  fills it index by index.
- **Collection copy** (`EnumerableCopier.CopyICollection`). Creates a new, empty collection of the
  source's runtime type and `Add`s every source element in enumeration order.

In both copy methods each element is either assigned as it is, or passed through the recursive
element copier `Copier<TElement, TElement>.Copy`. Which one depends on the element type's
classification.

Types are values of `Types.TypeDesc`. A declared type (class, struct or interface) carries the
answers reflection gives about it:
- `IsValueType`;
- its generic arguments;
- whether `IEnumerable` is assignable from it;
- whether `ICollection<first argument>` is assignable from it.

`Types.WellFormed` states what the .NET type system guarantees about these answers: a type can
only be an `ICollection<>` of its first argument if it has one, and every `ICollection<>` is
`IEnumerable`.

The recursive element copier is a function parameter `elemCopy`. What it is assumed to do is the
predicate `EnumerableCopier.IsDeepCopierOn`:
- an absent element copies to absent, as `Copier<TSource, TTarget>.Copy` returns `default` for
  `null` (src/DeepCopier/Copier`2.cs:24);
- a present element copies to a newly created object with the same value, so the copy is none
  of the source container's elements.

A collection is the class `EnumerableCopier.Collection`. It holds a runtime type and its elements
in enumeration order.

Some behaviours of the code are worth stating plainly:
- A container, for the classifier, is every `IEnumerable` except `string`, not only arrays and
  single-element-type collections.
- Strategy selection accepts only arrays and generic types that are collections of their first
  type argument. So a `Dictionary<K, V>` is rejected, and so is a non-generic `IEnumerable`
  (`EnumerableCopier.SomeContainersAreUnsupported`). A non-generic subclass of `List<int>` is
  rejected too, since it has no generic arguments.
- Neither copy strategy checks for an absent source: it dereferences the source directly. Absent
  values are handled earlier, by the generic copier (src/DeepCopier/Copier`2.cs:24). The model's
  copy methods therefore take a non-null array or collection.

## Model

| member | source | states |
|---|---|---|
| `Utils.IsRefTypeExceptString` | src/DeepCopier/Utils.cs:22-23 | true exactly for arrays and declared non-value types; false for string and every value type |
| `Utils.IsIEnumerableExceptString` | src/DeepCopier/Utils.cs:29-30 | true exactly for arrays and declared enumerable types; false for string; true for every well-formed collection of its first argument |
| `Utils.StringIsEnumerableButShared` | src/DeepCopier/Utils.cs:22-30 | string is assignable to IEnumerable, yet is neither a container nor copied recursively |
| `Utils.ReferenceContainersAreCopiedRecursively` | src/DeepCopier/Utils.cs:22-30 | a container that is not a value type is itself copied through the recursive copier |
| `EnumerableCopier.SelectCopyMethod` | src/DeepCopier/EnumerableCopier.cs:30-46 | an array selects the array strategy for its element type; a generic type selects the collection strategy for (itself, first argument) exactly when it is a collection of that argument; every other type is unsupported, and the error names it |
| `EnumerableCopier.SelectedTypesAreContainers` | src/DeepCopier/EnumerableCopier.cs:30-46 | every well-formed type that gets a strategy is a container for the classifier, and the strategy's element type is well-formed |
| `EnumerableCopier.OnlyFirstArgumentMatters` | src/DeepCopier/EnumerableCopier.cs:36-43 | two generic types that agree on their first argument and on being a collection of it get the same decision and the same element type |
| `EnumerableCopier.ListSelectsCollectionStrategy` | src/DeepCopier/EnumerableCopier.cs:36-43 | `List<E>` selects the collection strategy for (`List<E>`, E) |
| `EnumerableCopier.SomeContainersAreUnsupported` | src/DeepCopier/EnumerableCopier.cs:36-45 | `Dictionary<K, V>` and a non-generic enumerable are containers for the classifier but get the unsupported-type error naming them |
| `EnumerableCopier.Transfer` | src/DeepCopier/EnumerableCopier.cs:60-71 | a string or value-type element is assigned unchanged; an array or declared reference-type element goes through the recursive element copier |
| `EnumerableCopier.IsDeepCopierOn` | src/DeepCopier/EnumerableCopier.cs:88-91 | the assumed contract of the recursive copier `Copier<TElement, TElement>.Copy` called on each element: same value; an absent element copies to itself; a present element copies to an object that is none of the source's elements |
| `EnumerableCopier.CopiedElements` | src/DeepCopier/EnumerableCopier.cs:86-99 | the copied elements have the source's length, and each position holds the transfer of the source element at that position |
| `EnumerableCopier.CopiedElementsAppend` | src/DeepCopier/EnumerableCopier.cs:62-65 | copying a concatenation concatenates the copies, so adding in enumeration order builds the copy |
| `EnumerableCopier.ValueElementsCopiedByValue` | src/DeepCopier/EnumerableCopier.cs:93-99 | for value-type and string elements the copied elements equal the source elements |
| `EnumerableCopier.RecursiveElementsAreDeepCopies` | src/DeepCopier/EnumerableCopier.cs:86-92 | for reference elements and a deep element copier, every copied element has its source element's value, and is the same object exactly when that element is absent; the copy of a present element is identical to no element of the source |
| `EnumerableCopier.RecursiveCopyIsNotIdentical` | test/DeepCopyTest.cs:102-110 | a copy of reference elements that holds a present element is not element-wise identical to its source |
| `EnumerableCopier.Collection.CreateNewInstance` | src/DeepCopier/EnumerableCopier.cs:58 | a new collection has the requested runtime type and no elements |
| `EnumerableCopier.Collection.Add` | src/DeepCopier/EnumerableCopier.cs:62-72 | Add appends the element at the end of the enumeration order |
| `EnumerableCopier.CopyICollection` | src/DeepCopier/EnumerableCopier.cs:55-75 | the result is a newly allocated collection of the source's runtime type, holding the copied elements of the source in enumeration order; the source is unchanged |
| `EnumerableCopier.CopyArray` | src/DeepCopier/EnumerableCopier.cs:83-101 | the result is a newly allocated array of the source's length whose elements are the copied elements of the source; the source is unchanged |

## Left out

- The generic copier `Copier<TSource, TTarget>` (src/DeepCopier/Copier`2.cs) is not part of this
  model. This covers the field-mapping plan built from expression trees, the per-type-pair cache
  of compiled delegates, and the call of the selected strategy. Its recursive `Copy` enters the
  model only as the `elemCopy` parameter and the `IsDeepCopierOn` assumption.
- The facade `Copier` (src/DeepCopier/Copier.cs) only forwards to the generic copier.
- Reflection handles (`MethodInfo`, `MakeGenericMethod`, the static constructor that caches them)
  become the `CopyMethod` datatype.
- The unsupported-type error is the `Unsupported` variant, naming the type. The exception's
  message text is not modelled: its constructor takes a string while the call site passes a type.
- `Utils.CreateNewInstance` is not part of this model. It is represented as a fresh, empty
  collection of the same runtime type. A type without a parameterless constructor, where the
  instance creation would fail, is not modelled.
- `EnumerableCopier.Collection.Add` always appends. A collection whose `Add` drops duplicates or
  reorders (a set), or throws (a read-only collection), is not modelled.
- `EnumerableCopier.CopyArray` and `EnumerableCopier.CopyICollection` treat the element copier
  as a pure function. The allocation it performs, any cycle in the object graph and its
  termination are not modelled.
- Multi-dimensional arrays (`int[,]`) are not represented: `Types.ArrayType` is a rank-1 array
  only. For such a type strategy selection still picks the array strategy, whose `TElement[]`
  parameter cannot accept it, so the copy fails when the strategy is bound.
- A failing element copy is not modelled. When an element's static type is an unsupported
  container (`List<Dictionary<K, V>>`), copying a present element raises the unsupported-type
  error and stops the whole copy partway through. `EnumerableCopier.IsDeepCopierOn` assumes that
  no element copy fails.
- Nested containers as elements: such an element is copied by the recursive copier, which
  dispatches again. Only the element-level call is modelled.
- Concurrent first use of the static caches is not modelled.
