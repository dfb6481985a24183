/** The growable array of da.c: elements live in `buffer[0..size)`, the
    buffer has `capacity` slots, doubles when an insertion finds it full and
    shrinks after a removal by the rule of module Capacity. */
module DynamicArrays {
  import opened Capacity

  class DynamicArray<T(0)> {
    var capacity: nat
    var size: nat
    var buffer: array<T>  // the C struct's `array` field

    /** The abstract value: the stored elements in index order. */
    ghost var Contents: seq<T>
    ghost var Repr: set<object>

    /** The buffer matches the capacity field and holds the live elements in
        its first `size` slots. */
    ghost predicate Shape()
      reads this, Repr
    {
      && Repr == {this, buffer}
      && buffer.Length == capacity
      && size <= capacity
      && 1 <= capacity
      && IsPowerOfTwo(capacity)
    }

    ghost predicate Valid()
      reads this, Repr
      ensures Valid() ==> this in Repr
    {
      && Shape()
      && Balanced(size, capacity)
      && Contents == buffer[..size]
    }

    /** newDA: an empty array with one slot. */
    constructor ()
      ensures Valid() && fresh(Repr)
      ensures Contents == [] && capacity == 1
    {
      capacity := 1;
      size := 0;
      buffer := new T[1];
      Contents := [];
      Repr := {this, buffer};
    }

    /** sizeDA */
    function Size(): (n: nat)
      reads this, Repr
      requires Valid()
      ensures n == |Contents|
    {
      size
    }

    /** getDA: the element at `index`; nothing changes. */
    method Get(index: nat) returns (v: T)
      requires Valid() && index < |Contents|
      ensures v == Contents[index]
    {
      v := buffer[index];
    }

    /** doubleCap: reallocate to twice the capacity, keeping the elements. */
    method DoubleCap()
      requires Valid()
      modifies Repr
      ensures Shape() && fresh(buffer)
      ensures capacity == 2 * old(capacity) && size == old(size)
      ensures buffer[..size] == old(buffer[..size]) && Contents == old(Contents)
    {
      var bigger := new T[2 * capacity];
      // realloc copies the live prefix
      var k := 0;
      while k < size
        invariant 0 <= k <= size
        invariant forall i :: 0 <= i < k ==> bigger[i] == buffer[i]
        modifies bigger
      {
        bigger[k] := buffer[k];
        k := k + 1;
      }
      assert bigger[..size] == buffer[..size];
      capacity := 2 * capacity;
      buffer := bigger;
      Repr := {this, buffer};
    }

    /** halveCap: reallocate to half the capacity, or to 1 when empty. */
    method HalveCap()
      requires Shape() && ShouldShrink(size, capacity)
      requires size <= HalvedCapacity(size, capacity)
      modifies Repr
      ensures Shape() && fresh(buffer)
      ensures capacity == HalvedCapacity(old(size), old(capacity)) && size == old(size)
      ensures buffer[..size] == old(buffer[..size]) && Contents == old(Contents)
    {
      var newCap := if size == 0 then 1 else capacity / 2;
      if size != 0 {
        assert IsPowerOfTwo(capacity / 2);
      }
      var smaller := new T[newCap];
      var k := 0;
      while k < size
        invariant 0 <= k <= size
        invariant forall i :: 0 <= i < k ==> smaller[i] == buffer[i]
        modifies smaller
      {
        smaller[k] := buffer[k];
        k := k + 1;
      }
      assert smaller[..size] == buffer[..size];
      capacity := newCap;
      buffer := smaller;
      Repr := {this, buffer};
    }

    /** insertDA: put `value` at `index`, shifting the elements from `index`
        on one place to the right. */
    method Insert(index: nat, value: T)
      requires Valid() && index <= |Contents|
      modifies Repr
      ensures Valid() && fresh(Repr - old(Repr))
      ensures Contents == old(Contents)[..index] + [value] + old(Contents)[index..]
      ensures capacity == GrownCapacity(old(size), old(capacity))
    {
      ghost var s := Contents;
      InsertKeepsBalanced(size, capacity);
      if size == capacity {
        DoubleCap();
      }
      size := size + 1;
      ShiftUp(index);
      buffer[index] := value;
      Contents := s[..index] + [value] + s[index..];
      assert Contents == buffer[..size] by {
        forall k | 0 <= k < size
          ensures Contents[k] == buffer[k]
        {
          if k < index {
          } else if k == index {
          } else {
            assert Contents[k] == s[k - 1];
          }
        }
      }
    }

    /** The loop of insertDA: move the elements at `index .. size-2` one
        slot up, last first. */
    method ShiftUp(index: nat)
      requires Shape() && index < size
      modifies buffer
      ensures Shape()
      ensures forall k :: 0 <= k < index ==> buffer[k] == old(buffer[k])
      ensures forall k :: index < k < size ==> buffer[k] == old(buffer[k - 1])
    {
      var i := size - 1;
      while i > index
        invariant index <= i <= size - 1
        invariant forall k :: 0 <= k <= i ==> buffer[k] == old(buffer[k])
        invariant forall k :: i < k < size ==> buffer[k] == old(buffer[k - 1])
        decreases i
      {
        buffer[i] := buffer[i - 1];
        i := i - 1;
      }
    }

    /** insertDAback: `insertDA(size, value)`, as declared in da.h. */
    method InsertBack(value: T)
      requires Valid()
      modifies Repr
      ensures Valid() && fresh(Repr - old(Repr))
      ensures Contents == old(Contents) + [value]
    {
      Insert(size, value);
      assert old(Contents)[..|old(Contents)|] == old(Contents);
    }

    /** removeDA: take out the element at `index`, shifting the later ones
        one place to the left, then shrink the buffer if it is mostly empty. */
    method Remove(index: nat) returns (removed: T)
      requires Valid() && index < |Contents|
      modifies Repr
      ensures Valid() && fresh(Repr - old(Repr))
      ensures removed == old(Contents)[index]
      ensures Contents == old(Contents)[..index] + old(Contents)[index + 1..]
      ensures capacity == ShrunkCapacity(|Contents|, old(capacity))
    {
      ghost var s := Contents;
      removed := buffer[index];
      var i := index;
      while i < size - 1
        invariant index <= i <= size - 1
        invariant forall k :: 0 <= k < index ==> buffer[k] == s[k]
        invariant forall k :: index <= k < i ==> buffer[k] == s[k + 1]
        invariant forall k :: i <= k < size ==> buffer[k] == s[k]
        modifies buffer
      {
        buffer[i] := buffer[i + 1];
        i := i + 1;
      }
      size := size - 1;
      Contents := s[..index] + s[index + 1..];
      assert Contents == buffer[..size] by {
        forall k | 0 <= k < size
          ensures Contents[k] == buffer[k]
        {
          if k >= index {
            assert Contents[k] == s[k + 1];
          }
        }
      }
      RemoveKeepsBalanced(size, capacity);
      if ShouldShrink(size, capacity) {
        HalveCap();
      }
    }

    /** removeDAback: `removeDA(size - 1)`, as declared in da.h. */
    method RemoveBack() returns (removed: T)
      requires Valid() && |Contents| > 0
      modifies Repr
      ensures Valid() && fresh(Repr - old(Repr))
      ensures removed == old(Contents)[|old(Contents)| - 1]
      ensures Contents == old(Contents)[..|old(Contents)| - 1]
    {
      removed := Remove(size - 1);
    }

    /** setDA: overwrite the element at `index` and hand back the previous
        one, or append when `index` is the size (handing back null). */
    method Set(index: nat, value: T) returns (replaced: Option<T>)
      requires Valid() && index <= |Contents|
      modifies Repr
      ensures Valid() && fresh(Repr - old(Repr))
      ensures index == old(|Contents|) ==>
        replaced == None && Contents == old(Contents) + [value]
        && capacity == GrownCapacity(old(size), old(capacity))
      ensures index < old(|Contents|) ==>
        replaced == Some(old(Contents)[index]) && Contents == old(Contents)[index := value]
        && capacity == old(capacity) && Repr == old(Repr)
    {
      if index == size {
        Insert(index, value);
        assert old(Contents)[..index] == old(Contents);
        replaced := None;
      } else {
        replaced := Some(buffer[index]);
        buffer[index] := value;
        Contents := Contents[index := value];
      }
    }

    /** unionDA: append every element of `donor`, in order, then empty
        `donor` by removing from its back (linear time overall). */
    method Union(donor: DynamicArray<T>)
      requires Valid() && donor.Valid() && Repr !! donor.Repr
      modifies Repr, donor.Repr
      ensures Valid() && fresh(Repr - old(Repr))
      ensures donor.Valid() && fresh(donor.Repr - old(donor.Repr))
      ensures Contents == old(Contents) + old(donor.Contents)
      ensures donor.Contents == []
    {
      var i := 0;
      while i < donor.Size()
        invariant Valid() && fresh(Repr - old(Repr))
        invariant donor.Valid() && donor.Repr == old(donor.Repr)
        invariant donor.Contents == old(donor.Contents)
        invariant Repr !! donor.Repr
        invariant 0 <= i <= |donor.Contents|
        invariant Contents == old(Contents) + donor.Contents[..i]
        decreases |donor.Contents| - i
      {
        var v := donor.Get(i);
        var _ := Set(Size(), v);
        assert donor.Contents[..i + 1] == donor.Contents[..i] + [v];
        i := i + 1;
      }
      assert donor.Contents[..i] == donor.Contents;
      while donor.Size() > 0
        invariant Valid() && fresh(Repr - old(Repr))
        invariant donor.Valid() && fresh(donor.Repr - old(donor.Repr))
        invariant Repr !! donor.Repr
        invariant Contents == old(Contents) + old(donor.Contents)
        decreases |donor.Contents|
      {
        var _ := donor.RemoveBack();
      }
    }
  }
}
