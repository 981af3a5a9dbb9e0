/** The automatically sorted array (libk/ksorted_array.c). */
module SortedArrays {

  /** What the order predicate must satisfy: to come before is irreflexive and transitive, and so
      is not coming before. */
  ghost predicate StrictWeakOrder<T(!new)>(before: (T, T) -> bool) {
    && (forall a :: !before(a, a))
    && (forall a, b, c :: before(a, b) && before(b, c) ==> before(a, c))
    && (forall a, b, c :: !before(a, b) && !before(b, c) ==> !before(a, c))
  }

  ghost predicate Sorted<T>(s: seq<T>, before: (T, T) -> bool) {
    forall i, j :: 0 <= i < j < |s| ==> !before(s[j], s[i])
  }

  /** The first position whose element does not come before e. */
  function LowerBound<T>(s: seq<T>, e: T, before: (T, T) -> bool): (i: nat)
    ensures i <= |s|
    ensures forall k :: 0 <= k < i ==> before(s[k], e)
    ensures i < |s| ==> !before(s[i], e)
  {
    if s == [] || !before(s[0], e) then 0 else 1 + LowerBound(s[1..], e, before)
  }

  function Insert<T>(s: seq<T>, i: nat, e: T): seq<T>
    requires i <= |s|
  {
    s[..i] + [e] + s[i..]
  }

  function Delete<T>(s: seq<T>, i: nat): seq<T>
    requires i < |s|
  {
    s[..i] + s[i + 1..]
  }

  class SortedArray<T(0)> {
    // One slot more than the capacity: the last step of Remove reads the word after the live ones.
    const elements: array<T>
    const capacity: nat
    var count: nat

    ghost predicate Valid()
      reads this
    {
      elements.Length == capacity + 1 && count <= capacity
    }

    ghost function Contents(): (s: seq<T>)
      requires Valid()
      reads this, elements
      ensures |s| == count
    {
      elements[..count]
    }

    constructor (capacity: nat)
      ensures Valid() && Contents() == [] && this.capacity == capacity && fresh(elements)
    {
      this.capacity := capacity;
      elements := new T[capacity + 1];
      count := 0;
    }

    /** Inserts before the first element that the new one need not follow. The result is that
        position, except that an insertion into an empty array answers 1. */
    method Add(element: T, before: (T, T) -> bool) returns (index: nat)
      requires Valid() && count < capacity
      modifies this`count, elements
      ensures Valid()
      ensures Contents() == Insert(old(Contents()), LowerBound(old(Contents()), element, before), element)
      ensures index == if old(count) == 0 then 1 else LowerBound(old(Contents()), element, before)
    {
      if count == 0 {
        elements[0] := element;
        count := count + 1;
        return count;
      }
      index := Search(element, before);
      if index >= count {
        elements[count] := element;
        count := count + 1;
      } else {
        MakeRoom(index, element);
      }
    }

    method Search(element: T, before: (T, T) -> bool) returns (i: nat)
      requires Valid()
      ensures i == LowerBound(Contents(), element, before)
    {
      ghost var s := Contents();
      i := 0;
      while i < count && before(elements[i], element)
        invariant i <= count
        invariant LowerBound(s, element, before) == i + LowerBound(s[i..], element, before)
      {
        assert s[i..][1..] == s[i + 1..];
        i := i + 1;
      }
    }

    /** Moves every element from position i to the end one place to the right, and fills the gap. */
    method MakeRoom(i: nat, element: T)
      requires Valid() && i < count < capacity
      modifies this`count, elements
      ensures Valid() && Contents() == Insert(old(Contents()), i, element)
    {
      forall k | i < k <= count {
        elements[k] := elements[k - 1];
      }
      elements[i] := element;
      count := count + 1;
    }

    method Get(index: nat) returns (element: T)
      requires Valid() && index < count
      ensures element == Contents()[index]
    {
      element := elements[index];
    }

    method Remove(index: nat)
      requires Valid() && index < count
      modifies this`count, elements
      ensures Valid() && Contents() == Delete(old(Contents()), index)
    {
      ghost var s := Contents();
      var i := index;
      while i < count
        invariant index <= i <= count && Valid() && count == |s|
        invariant elements[..i] == s[..index] + elements[index..i]
        invariant forall k :: index <= k < i && k + 1 < |s| ==> elements[k] == s[k + 1]
        invariant forall k :: i < k < count ==> elements[k] == s[k]
      {
        elements[i] := elements[i + 1];
        i := i + 1;
      }
      count := count - 1;
      assert Contents() == Delete(s, index);
    }

    method Count() returns (n: nat)
      requires Valid()
      ensures n == |Contents()|
    {
      n := count;
    }
  }

  /** Exactly the elements below the lower bound come before the new one. */
  lemma LowerBoundSplits<T(!new)>(s: seq<T>, e: T, before: (T, T) -> bool, k: nat)
    requires StrictWeakOrder(before) && Sorted(s, before) && k < |s|
    ensures before(s[k], e) <==> k < LowerBound(s, e, before)
    ensures k < LowerBound(s, e, before) ==> !before(e, s[k])
  {
    hide StrictWeakOrder;
    var i := LowerBound(s, e, before);
    if k < i {
      Asymmetric(before, s[k], e);
    } else if k > i {
      NotBeforeTransitive(before, s[k], s[i], e);
    }
  }

  /** Insertion at the lower bound keeps the array sorted and adds exactly the new element. */
  lemma InsertKeepsSorted<T(!new)>(s: seq<T>, e: T, before: (T, T) -> bool)
    requires StrictWeakOrder(before) && Sorted(s, before)
    ensures Sorted(Insert(s, LowerBound(s, e, before), e), before)
    ensures multiset(Insert(s, LowerBound(s, e, before), e)) == multiset(s) + multiset{e}
  {
    hide StrictWeakOrder, LowerBound;
    var i := LowerBound(s, e, before);
    InsertMultiset(s, i, e);
    var t := Insert(s, i, e);
    forall j, k | 0 <= j < k < |t|
      ensures !before(t[k], t[j])
    {
      if j == i {
        LowerBoundSplits(s, e, before, k - 1);
      } else if k == i {
        LowerBoundSplits(s, e, before, j);
      }
    }
  }

  lemma InsertMultiset<T>(s: seq<T>, i: nat, e: T)
    requires i <= |s|
    ensures multiset(Insert(s, i, e)) == multiset(s) + multiset{e}
  {
    assert s == s[..i] + s[i..];
  }

  lemma Asymmetric<T(!new)>(before: (T, T) -> bool, a: T, b: T)
    requires StrictWeakOrder(before) && before(a, b)
    ensures !before(b, a)
  {
    assert !before(a, a);
  }

  lemma NotBeforeTransitive<T(!new)>(before: (T, T) -> bool, a: T, b: T, c: T)
    requires StrictWeakOrder(before) && !before(a, b) && !before(b, c)
    ensures !before(a, c)
  {
  }

  lemma DeleteKeepsSorted<T>(s: seq<T>, i: nat, before: (T, T) -> bool)
    requires Sorted(s, before) && i < |s|
    ensures Sorted(Delete(s, i), before)
    ensures multiset(Delete(s, i)) == multiset(s) - multiset{s[i]}
  {
    assert s == s[..i] + [s[i]] + s[i + 1..];
  }

  /** In a sorted array, the first element that meets a condition is a least one that does. */
  lemma FirstFitIsBestFit<T(!new)>(s: seq<T>, i: nat, fits: T -> bool, before: (T, T) -> bool)
    requires StrictWeakOrder(before) && Sorted(s, before) && i < |s| && fits(s[i])
    requires forall k :: 0 <= k < i ==> !fits(s[k])
    ensures forall k :: 0 <= k < |s| && fits(s[k]) ==> !before(s[k], s[i])
  {
    assert !before(s[i], s[i]);
  }

  /** The result of an insertion is the new element's index exactly when the array was not empty. */
  lemma FirstIndexIsOne<T>(s: seq<T>, e: T, before: (T, T) -> bool, index: nat)
    requires index == if |s| == 0 then 1 else LowerBound(s, e, before)
    ensures (index <= |s| && Insert(s, LowerBound(s, e, before), e)[index] == e && index == LowerBound(s, e, before))
            <==> |s| > 0
  {
  }
}
