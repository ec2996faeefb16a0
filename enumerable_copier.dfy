/** The container-copy layer: choosing a copy strategy for an enumerable type, and the two
    strategies themselves (arrays, and generic collections of their first type argument). */
module EnumerableCopier {
  import opened Types
  import opened Utils

  /** The copy strategies, instantiated for concrete types. */
  datatype CopyMethod =
    | CopyArrayOf(elem: TypeDesc)
    | CopyICollectionOf(collection: TypeDesc, elem: TypeDesc)

  /** The outcome of strategy selection: a strategy, or the unsupported-type error naming the type. */
  datatype Selection =
    | Selected(strategy: CopyMethod)
    | Unsupported(offending: TypeDesc)

  /** Picks the copy strategy for an enumerable type: arrays by their element type; otherwise,
      a type with generic arguments that is an ICollection of its FIRST argument by the collection
      strategy; every other type is unsupported. */
  function SelectCopyMethod(t: TypeDesc): (r: Selection)
    ensures t.ArrayType? ==> r == Selected(CopyArrayOf(t.elem))
    ensures r.Selected? && r.strategy.CopyICollectionOf? <==>
              t.Declared? && |t.args| > 0 && t.collectionOfFirstArg
    ensures r.Selected? && r.strategy.CopyICollectionOf? ==>
              r.strategy.collection == t && r.strategy.elem == t.args[0]
    ensures r.Unsupported? <==> !t.ArrayType? && !(t.Declared? && |t.args| > 0 && t.collectionOfFirstArg)
    ensures r.Unsupported? ==> r.offending == t
  {
    if t.ArrayType? then
      Selected(CopyArrayOf(t.elem))
    else if |GenericArguments(t)| > 0 then
      var elementType := GenericArguments(t)[0];
      if t.Declared? && t.collectionOfFirstArg then
        Selected(CopyICollectionOf(t, elementType))
      else
        Unsupported(t)
    else
      Unsupported(t)
  }

  /** A type for which a strategy is selected is a container, and the strategy's element type is
      a well-formed type again, so the recursive copier can in turn classify it. */
  lemma SelectedTypesAreContainers(t: TypeDesc)
    requires WellFormed(t)
    ensures SelectCopyMethod(t).Selected? ==>
              IsIEnumerableExceptString(t) && WellFormed(SelectCopyMethod(t).strategy.elem)
  {
  }

  /** Only the first generic argument is consulted: two generic types that agree on it and on
      being a collection of it get the same decision, whatever their other arguments are. */
  lemma OnlyFirstArgumentMatters(t: TypeDesc, u: TypeDesc)
    requires t.Declared? && u.Declared? && |t.args| > 0 && |u.args| > 0
    requires t.args[0] == u.args[0] && t.collectionOfFirstArg == u.collectionOfFirstArg
    ensures SelectCopyMethod(t).Selected? == SelectCopyMethod(u).Selected?
    ensures SelectCopyMethod(t).Selected? ==>
              SelectCopyMethod(t).strategy.elem == SelectCopyMethod(u).strategy.elem
  {
  }

  /** List<E> (a collection of its one argument) selects the collection strategy for (List<E>, E). */
  lemma ListSelectsCollectionStrategy(e: TypeDesc)
    ensures var t := Declared("List`1", false, [e], true, true);
            SelectCopyMethod(t) == Selected(CopyICollectionOf(t, e))
  {
  }

  /** Enumerable types that are not arrays and not collections of their first generic argument
      are containers for the classifier yet have no strategy: Dictionary<K, V> (a collection of
      key-value pairs, not of K) and a non-generic enumerable class such as ArrayList. */
  lemma SomeContainersAreUnsupported(k: TypeDesc, v: TypeDesc)
    requires WellFormed(k) && WellFormed(v)
    ensures var dictionary := Declared("Dictionary`2", false, [k, v], true, false);
            WellFormed(dictionary) && IsIEnumerableExceptString(dictionary) &&
            SelectCopyMethod(dictionary) == Unsupported(dictionary)
    ensures var arrayList := Declared("ArrayList", false, [], true, false);
            WellFormed(arrayList) && IsIEnumerableExceptString(arrayList) &&
            SelectCopyMethod(arrayList) == Unsupported(arrayList)
  {
  }

  /** How one element reaches the copy: through the recursive copier when its type is a
      reference type other than string, by plain assignment otherwise. */
  function Transfer<T>(elemType: TypeDesc, elemCopy: T -> T, x: T): (r: T)
    ensures elemType == StringType || IsValueType(elemType) ==> r == x
    ensures elemType.ArrayType? || (elemType.Declared? && !elemType.isValueType) ==> r == elemCopy(x)
  {
    if IsRefTypeExceptString(elemType) then elemCopy(x) else x
  }

  /** The elements of a copied container, in the source's order: one transferred element per
      source element, at the same position. */
  function CopiedElements<T>(s: seq<T>, elemType: TypeDesc, elemCopy: T -> T): (r: seq<T>)
    ensures |r| == |s|
    ensures forall i :: 0 <= i < |s| ==> r[i] == Transfer(elemType, elemCopy, s[i])
  {
    if s == [] then [] else [Transfer(elemType, elemCopy, s[0])] + CopiedElements(s[1..], elemType, elemCopy)
  }

  /** Copying a concatenation copies each part: the copy is built element by element in
      enumeration order, and appending one more source element appends its transfer. */
  lemma CopiedElementsAppend<T>(a: seq<T>, b: seq<T>, elemType: TypeDesc, elemCopy: T -> T)
    ensures CopiedElements(a + b, elemType, elemCopy) ==
            CopiedElements(a, elemType, elemCopy) + CopiedElements(b, elemType, elemCopy)
  {
  }

  /** For value-type and string elements the copy holds exactly the source's elements. */
  lemma ValueElementsCopiedByValue<T>(s: seq<T>, elemType: TypeDesc, elemCopy: T -> T)
    requires !IsRefTypeExceptString(elemType)
    ensures CopiedElements(s, elemType, elemCopy) == s
  {
  }

  /** What the recursive copier Copier<E, E>.Copy is assumed to do on the elements of s: an absent
      element copies to itself (absent), and a present element copies to a newly created object
      with the same value, which is therefore none of the elements of s. */
  ghost predicate IsDeepCopierOn<T>(s: seq<T>, elemCopy: T -> T, isNull: T -> bool, sameValue: (T, T) -> bool)
    ensures IsDeepCopierOn(s, elemCopy, isNull, sameValue) ==>
              forall i :: 0 <= i < |s| ==> (elemCopy(s[i]) == s[i] <==> isNull(s[i]))
    ensures IsDeepCopierOn(s, elemCopy, isNull, sameValue) ==>
              forall i, j :: 0 <= i < |s| && 0 <= j < |s| && !isNull(s[i]) ==> elemCopy(s[i]) != s[j]
  {
    forall i :: 0 <= i < |s| ==>
      sameValue(elemCopy(s[i]), s[i]) &&
      (isNull(s[i]) ==> elemCopy(s[i]) == s[i]) &&
      (!isNull(s[i]) ==> elemCopy(s[i]) !in s)
  }

  /** With reference (non-string) elements and a deep element copier, every copied element has the
      value of its source element, and it is the same object exactly when that element is absent;
      the copy of a present element aliases no element of the source at all. */
  lemma RecursiveElementsAreDeepCopies<T>(s: seq<T>, elemType: TypeDesc, elemCopy: T -> T,
                                               isNull: T -> bool, sameValue: (T, T) -> bool)
    requires IsRefTypeExceptString(elemType)
    requires IsDeepCopierOn(s, elemCopy, isNull, sameValue)
    ensures var r := CopiedElements(s, elemType, elemCopy);
            forall i :: 0 <= i < |s| ==> sameValue(r[i], s[i]) && (r[i] == s[i] <==> isNull(s[i]))
    ensures var r := CopiedElements(s, elemType, elemCopy);
            forall i, j :: 0 <= i < |s| && 0 <= j < |s| && !isNull(s[i]) ==> r[i] != s[j]
  {
  }

  /** Consequently a copied container of reference elements that holds a present element is not
      element-wise identical to its source. */
  lemma RecursiveCopyIsNotIdentical<T>(s: seq<T>, elemType: TypeDesc, elemCopy: T -> T,
                                           isNull: T -> bool, sameValue: (T, T) -> bool, i: nat)
    requires IsRefTypeExceptString(elemType)
    requires IsDeepCopierOn(s, elemCopy, isNull, sameValue)
    requires i < |s| && !isNull(s[i])
    ensures CopiedElements(s, elemType, elemCopy) != s
  {
    assert CopiedElements(s, elemType, elemCopy)[i] != s[i];
  }

  /** A generic collection (an ICollection<T>): its runtime type, and its elements in enumeration
      order. Add appends. */
  class Collection<T> {
    const runtimeType: TypeDesc
    var items: seq<T>

    /** Utils.CreateNewInstance(type): a fresh, empty collection of the given runtime type. */
    constructor CreateNewInstance(runtimeType: TypeDesc)
      ensures this.runtimeType == runtimeType && items == []
    {
      this.runtimeType := runtimeType;
      items := [];
    }

    /** ICollection<T>.Add. */
    method Add(x: T)
      modifies this
      ensures items == old(items) + [x]
    {
      items := items + [x];
    }
  }

  /** Copies a generic collection: a new, empty collection of the source's runtime type, to which
      every source element is added once, in enumeration order, transferred by its element type.
      The source is only read. */
  method CopyICollection<T>(source: Collection<T>, elemType: TypeDesc, elemCopy: T -> T)
    returns (result: Collection<T>)
    ensures fresh(result)
    ensures result.runtimeType == source.runtimeType
    ensures result.items == CopiedElements(source.items, elemType, elemCopy)
    ensures source.items == old(source.items)
  {
    result := new Collection.CreateNewInstance(source.runtimeType);
    var n := |source.items|;
    if IsRefTypeExceptString(elemType) {
      for i := 0 to n
        invariant result.items == CopiedElements(source.items[..i], elemType, elemCopy)
      {
        var item := source.items[i];
        assert source.items[..i + 1] == source.items[..i] + [item];
        CopiedElementsAppend(source.items[..i], [item], elemType, elemCopy);
        result.Add(elemCopy(item));
      }
    } else {
      for i := 0 to n
        invariant result.items == CopiedElements(source.items[..i], elemType, elemCopy)
      {
        var item := source.items[i];
        assert source.items[..i + 1] == source.items[..i] + [item];
        CopiedElementsAppend(source.items[..i], [item], elemType, elemCopy);
        result.Add(item);
      }
    }
    assert source.items[..n] == source.items;
  }

  /** Copies an array: a new array of the same length whose every slot holds the transferred
      source element at that index. The source array is only read. */
  method CopyArray<T(0)>(source: array<T>, elemType: TypeDesc, elemCopy: T -> T) returns (result: array<T>)
    ensures fresh(result)
    ensures result.Length == source.Length
    ensures result[..] == CopiedElements(source[..], elemType, elemCopy)
    ensures source[..] == old(source[..])
  {
    result := new T[source.Length];
    if IsRefTypeExceptString(elemType) {
      for i := 0 to source.Length
        invariant forall k :: 0 <= k < i ==> result[k] == elemCopy(source[k])
      {
        result[i] := elemCopy(source[i]);
      }
    } else {
      for i := 0 to source.Length
        invariant forall k :: 0 <= k < i ==> result[k] == source[k]
      {
        result[i] := source[i];
      }
    }
  }
}
