/** The circular growable array of cda.c: logical element i lives in
    physical slot (startIndex + i) mod capacity, so elements can be added and
    removed at either end in amortised constant time. Every reallocation
    copies the elements out in logical order and resets startIndex to 0. */
module CircularArrays {
  import opened Capacity

  /** The physical slot of logical index `i`, computed as getCDA and setCDA
      do: one addition and at most one subtraction of the capacity. The
      single subtraction suffices because startIndex may reach the capacity
      but not exceed it. */
  function Slot(start: nat, i: nat, capacity: nat): (slot: nat)
    requires start <= capacity && i < capacity
    ensures slot < capacity
  {
    var fixed := start + i;
    if fixed >= capacity then fixed - capacity else fixed
  }

  /** The slot is the logical index shifted by the start, modulo the capacity. */
  lemma SlotIsModulo(start: nat, i: nat, capacity: nat)
    requires start <= capacity && i < capacity
    ensures Slot(start, i, capacity) == (start + i) % capacity
  {
    if start + i >= capacity {
      ModuloOfShift(start + i, capacity);
    }
  }

  lemma ModuloOfShift(x: nat, m: nat)
    requires m > 0 && m <= x < 2 * m
    ensures x % m == x - m
  {
    assert x == m * 1 + (x - m);
  }

  /** Distinct logical indices never share a slot. */
  lemma SlotInjective(start: nat, i: nat, j: nat, capacity: nat)
    requires start <= capacity && i < capacity && j < capacity && i != j
    ensures Slot(start, i, capacity) != Slot(start, j, capacity)
  {
  }

  /** incrementIndex: step the start one slot forward; it wraps only once it
      has gone past the capacity, so the result may equal the capacity. */
  function IncrementIndex(index: nat, capacity: nat): (r: nat)
    requires 1 <= capacity && index <= capacity
    ensures 1 <= r <= capacity
    ensures forall i :: 0 <= i < capacity - 1 ==>
              Slot(r, i, capacity) == Slot(index, i + 1, capacity)
  {
    var next := index + 1;
    if next > capacity then next - capacity else next
  }

  /** decrementIndex: step the start one slot back, wrapping below 0. */
  function DecrementIndex(index: nat, capacity: nat): (r: nat)
    requires 1 <= capacity && index <= capacity
    ensures r < capacity
    ensures forall i :: 1 <= i < capacity ==>
              Slot(r, i, capacity) == Slot(index, i - 1, capacity)
  {
    var previous := index - 1;
    if previous < 0 then previous + capacity else previous
  }

  class CircularArray<T(0)> {
    var capacity: nat
    var size: nat
    var startIndex: nat
    var buffer: array<T>  // the C struct's `array` field

    /** The abstract value: the stored elements in logical order. */
    ghost var Contents: seq<T>
    ghost var Repr: set<object>

    ghost predicate Shape()
      reads this, Repr
    {
      && Repr == {this, buffer}
      && buffer.Length == capacity
      && 1 <= capacity
      && IsPowerOfTwo(capacity)
      && size <= capacity
      && startIndex <= capacity
    }

    /** Logical element i is stored in slot Slot(startIndex, i, capacity). */
    ghost predicate Mapped()
      reads this, Repr
      requires Shape()
    {
      && |Contents| == size
      && forall i :: 0 <= i < size ==> Contents[i] == buffer[Slot(startIndex, i, capacity)]
    }

    ghost predicate Valid()
      reads this, Repr
      ensures Valid() ==> this in Repr
    {
      && Shape()
      && Balanced(size, capacity)
      && Mapped()
    }

    /** newCDA: empty, one slot, start 0. */
    constructor ()
      ensures Valid() && fresh(Repr)
      ensures Contents == [] && capacity == 1 && startIndex == 0
    {
      capacity := 1;
      size := 0;
      startIndex := 0;
      buffer := new T[1];
      Contents := [];
      Repr := {this, buffer};
    }

    /** sizeCDA */
    function Size(): (n: nat)
      reads this, Repr
      requires Valid()
      ensures n == |Contents|
    {
      size
    }

    /** getCDA: the element at logical `index`; nothing changes. */
    method Get(index: nat) returns (v: T)
      requires Valid() && index < |Contents|
      ensures v == Contents[index]
    {
      var fixedIndex := startIndex + index;
      if fixedIndex >= capacity {
        fixedIndex := fixedIndex - capacity;
      }
      assert fixedIndex == Slot(startIndex, index, capacity);
      v := buffer[fixedIndex];
    }

    /** doubleCap: copy the elements in logical order into a buffer of twice
        the capacity and reset the start to 0. Called only when full. */
    method DoubleCap()
      requires Valid() && size == capacity
      modifies Repr
      ensures Valid() && fresh(buffer) && Repr == {this, buffer}
      ensures capacity == 2 * old(capacity) && startIndex == 0
      ensures size == old(size) && Contents == old(Contents)
    {
      var newArray := new T[2 * capacity];
      var i := 0;
      while i < size
        invariant 0 <= i <= size
        invariant forall k :: 0 <= k < i ==> newArray[k] == Contents[k]
        modifies newArray
      {
        newArray[i] := buffer[Slot(startIndex, i, capacity)];
        i := i + 1;
      }
      buffer := newArray;
      capacity := 2 * capacity;
      startIndex := 0;
      Repr := {this, buffer};
      assert (2 * (capacity / 2)) / 4 <= size;
    }

    /** halveCap: copy the elements in logical order into a buffer of half
        the capacity (1 when empty) and reset the start to 0. */
    method HalveCap()
      requires Shape() && Mapped()
      requires ShouldShrink(size, capacity) && size <= HalvedCapacity(size, capacity)
      modifies Repr
      ensures Shape() && Mapped() && fresh(buffer)
      ensures capacity == HalvedCapacity(old(size), old(capacity)) && startIndex == 0
      ensures size == old(size) && Contents == old(Contents)
    {
      var newCap := 0;
      if size == 0 {
        newCap := 1;
      } else {
        newCap := capacity / 2;
        assert IsPowerOfTwo(newCap);
      }
      var newArray := new T[newCap];
      var i := 0;
      while i < size
        invariant 0 <= i <= size
        invariant forall k :: 0 <= k < i ==> newArray[k] == Contents[k]
        modifies newArray
      {
        newArray[i] := buffer[Slot(startIndex, i, capacity)];
        i := i + 1;
      }
      buffer := newArray;
      capacity := newCap;
      startIndex := 0;
      Repr := {this, buffer};
    }

    /** The loop shared by insertCDA and removeCDA that moves logical
        elements lo+1 .. hi one place towards the front (getCDA(i + 1) stored
        by setCDA at i, for ascending i); nothing else changes. */
    method ShiftDown(lo: nat, hi: nat)
      requires Shape() && lo <= hi < size
      modifies buffer
      ensures forall L :: 0 <= L < size ==>
                buffer[Slot(startIndex, L, capacity)] ==
                  if lo <= L < hi then old(buffer[Slot(startIndex, L + 1, capacity)])
                  else old(buffer[Slot(startIndex, L, capacity)])
    {
      var i := lo;
      while i < hi
        invariant lo <= i <= hi
        invariant forall L :: lo <= L < i ==>
                    buffer[Slot(startIndex, L, capacity)] == old(buffer[Slot(startIndex, L + 1, capacity)])
        invariant forall L :: 0 <= L < size && !(lo <= L < i) ==>
                    buffer[Slot(startIndex, L, capacity)] == old(buffer[Slot(startIndex, L, capacity)])
      {
        buffer[Slot(startIndex, i, capacity)] := buffer[Slot(startIndex, i + 1, capacity)];
        i := i + 1;
      }
    }

    /** The loop shared by insertCDA and removeCDA that moves logical
        elements lo .. hi-1 one place towards the back (getCDA(i - 1) stored
        by setCDA at i, for descending i); nothing else changes. */
    method ShiftUp(lo: nat, hi: nat)
      requires Shape() && lo <= hi < size
      modifies buffer
      ensures forall L :: 0 <= L < size ==>
                buffer[Slot(startIndex, L, capacity)] ==
                  if lo < L <= hi then old(buffer[Slot(startIndex, L - 1, capacity)])
                  else old(buffer[Slot(startIndex, L, capacity)])
    {
      var i := hi;
      while i > lo
        invariant lo <= i <= hi
        invariant forall L :: i < L <= hi ==>
                    buffer[Slot(startIndex, L, capacity)] == old(buffer[Slot(startIndex, L - 1, capacity)])
        invariant forall L :: 0 <= L < size && !(i < L <= hi) ==>
                    buffer[Slot(startIndex, L, capacity)] == old(buffer[Slot(startIndex, L, capacity)])
        decreases i
      {
        buffer[Slot(startIndex, i, capacity)] := buffer[Slot(startIndex, i - 1, capacity)];
        i := i - 1;
      }
    }

    /** insertCDA: put `value` at logical `index`, first doubling the buffer
        if it is full. */
    method Insert(index: nat, value: T)
      requires Valid() && index <= |Contents|
      modifies Repr
      ensures Valid() && fresh(Repr - old(Repr))
      ensures Contents == old(Contents)[..index] + [value] + old(Contents)[index..]
      ensures capacity == GrownCapacity(old(size), old(capacity))
      ensures var start := if old(size) == old(capacity) then 0 else old(startIndex);
              startIndex == if index <= (old(size) + 1) / 2
                            then DecrementIndex(start, capacity) else start
    {
      InsertKeepsBalanced(size, capacity);
      if size == capacity {
        DoubleCap();
      }
      Place(index, value);
    }

    /** The rest of insertCDA once a free slot exists: in the front half
        the start moves back one slot and only the prefix before `index`
        shifts towards the front; in the back half the suffix shifts towards
        the back and the start stays. Then the value is stored at `index`. */
    method Place(index: nat, value: T)
      requires Shape() && Mapped() && size < capacity && index <= size
      modifies this, buffer
      ensures Shape() && Mapped() && buffer == old(buffer) && capacity == old(capacity)
      ensures size == old(size) + 1
      ensures Contents == old(Contents)[..index] + [value] + old(Contents)[index..]
      ensures startIndex == if index <= (old(size) + 1) / 2
                            then DecrementIndex(old(startIndex), capacity) else old(startIndex)
    {
      ghost var s := Contents;
      if index <= (size + 1) / 2 {
        RoomAtFront(index);
      } else {
        RoomAtBack(index);
      }
      buffer[Slot(startIndex, index, capacity)] := value;
      Contents := s[..index] + [value] + s[index..];
      forall L | 0 <= L < size
        ensures Contents[L] == buffer[Slot(startIndex, L, capacity)]
      {
        if L < index {
          SlotInjective(startIndex, L, index, capacity);
          assert Contents[L] == s[L];
        } else if L > index {
          SlotInjective(startIndex, L, index, capacity);
          assert Contents[L] == s[L - 1];
        }
      }
    }

    /** insertCDA's front-half case before the store: one more element, the
        start one slot back, the prefix before `index` moved to the front. */
    method RoomAtFront(index: nat)
      requires Shape() && Mapped() && size < capacity && index <= size
      modifies this, buffer
      ensures Shape() && buffer == old(buffer) && capacity == old(capacity)
      ensures size == old(size) + 1 && Contents == old(Contents)
      ensures startIndex == DecrementIndex(old(startIndex), capacity)
      ensures forall L :: 0 <= L < index ==> buffer[Slot(startIndex, L, capacity)] == Contents[L]
      ensures forall L :: index < L < size ==> buffer[Slot(startIndex, L, capacity)] == Contents[L - 1]
    {
      size := size + 1;
      startIndex := DecrementIndex(startIndex, capacity);
      // logical index L >= 1 now names the slot that logical L - 1 used to
      assert forall L :: 1 <= L < size ==> buffer[Slot(startIndex, L, capacity)] == Contents[L - 1];
      ShiftDown(0, index);
    }

    /** insertCDA's back-half case before the store: one more element, the
        suffix from `index` on moved one place towards the back. */
    method RoomAtBack(index: nat)
      requires Shape() && Mapped() && size < capacity && index <= size
      modifies this, buffer
      ensures Shape() && buffer == old(buffer) && capacity == old(capacity)
      ensures size == old(size) + 1 && Contents == old(Contents)
      ensures startIndex == old(startIndex)
      ensures forall L :: 0 <= L < index ==> buffer[Slot(startIndex, L, capacity)] == Contents[L]
      ensures forall L :: index < L < size ==> buffer[Slot(startIndex, L, capacity)] == Contents[L - 1]
    {
      size := size + 1;
      ShiftUp(index, size - 1);
    }

    /** removeCDA: take out the element at logical `index`. In the front half
        the prefix shifts towards the back and the start moves forward one
        slot; in the back half the suffix shifts towards the front. Then the
        buffer shrinks if it is mostly empty. */
    method Remove(index: nat) returns (removed: T)
      requires Valid() && index < |Contents|
      modifies Repr
      ensures Valid() && fresh(Repr - old(Repr))
      ensures removed == old(Contents)[index]
      ensures Contents == old(Contents)[..index] + old(Contents)[index + 1..]
      ensures capacity == ShrunkCapacity(|Contents|, old(capacity))
      ensures startIndex ==
                if ShouldShrink(|Contents|, old(capacity)) then 0
                else if index <= old(size) / 2 then IncrementIndex(old(startIndex), capacity)
                else old(startIndex)
    {
      ghost var s := Contents;
      removed := buffer[Slot(startIndex, index, capacity)];
      if index <= size / 2 {
        ShiftUp(0, index);
        startIndex := IncrementIndex(startIndex, capacity);
        // logical index L now names the slot that logical L + 1 used to
      } else {
        ShiftDown(index, size - 1);
      }
      size := size - 1;
      Contents := s[..index] + s[index + 1..];
      forall L | 0 <= L < size
        ensures Contents[L] == buffer[Slot(startIndex, L, capacity)]
      {
        if L >= index {
          assert Contents[L] == s[L + 1];
        }
      }
      RemoveKeepsBalanced(size, capacity);
      if ShouldShrink(size, capacity) {
        HalveCap();
      }
    }

    /** insertCDAfront: `insertCDA(0, value)`, as declared in cda.h. */
    method InsertFront(value: T)
      requires Valid()
      modifies Repr
      ensures Valid() && fresh(Repr - old(Repr))
      ensures Contents == [value] + old(Contents)
    {
      Insert(0, value);
    }

    /** insertCDAback: `insertCDA(size, value)`, as declared in cda.h. */
    method InsertBack(value: T)
      requires Valid()
      modifies Repr
      ensures Valid() && fresh(Repr - old(Repr))
      ensures Contents == old(Contents) + [value]
    {
      Insert(size, value);
      assert old(Contents)[..|old(Contents)|] == old(Contents);
    }

    /** removeCDAfront: `removeCDA(0)`, as declared in cda.h. */
    method RemoveFront() returns (removed: T)
      requires Valid() && |Contents| > 0
      modifies Repr
      ensures Valid() && fresh(Repr - old(Repr))
      ensures removed == old(Contents)[0] && Contents == old(Contents)[1..]
    {
      removed := Remove(0);
    }

    /** removeCDAback: `removeCDA(size - 1)`, as declared in cda.h. */
    method RemoveBack() returns (removed: T)
      requires Valid() && |Contents| > 0
      modifies Repr
      ensures Valid() && fresh(Repr - old(Repr))
      ensures removed == old(Contents)[|old(Contents)| - 1]
      ensures Contents == old(Contents)[..|old(Contents)| - 1]
    {
      removed := Remove(size - 1);
    }

    /** setCDA: index -1 inserts at the front and index == size at the back
        (both hand back null); any other index is overwritten and its
        previous element handed back. */
    method Set(index: int, value: T) returns (replaced: Option<T>)
      requires Valid() && -1 <= index <= |Contents|
      modifies Repr
      ensures Valid() && fresh(Repr - old(Repr))
      ensures index == old(|Contents|) ==>
                replaced == None && Contents == old(Contents) + [value]
      ensures index == -1 ==>
                replaced == None && Contents == [value] + old(Contents)
      ensures 0 <= index < old(|Contents|) ==>
                && replaced == Some(old(Contents)[index])
                && Contents == old(Contents)[index := value]
                && Repr == old(Repr) && capacity == old(capacity)
                && startIndex == old(startIndex)
    {
      replaced := None;
      if index > -1 && index < size {
        var previous := Get(index);
        replaced := Some(previous);
      }
      if index == size {
        InsertBack(value);
      } else if index == -1 {
        InsertFront(value);
      } else {
        var fixedIndex := startIndex + index;
        if fixedIndex >= capacity {
          fixedIndex := fixedIndex - capacity;
        }
        assert fixedIndex == Slot(startIndex, index, capacity);
        buffer[fixedIndex] := value;
        Contents := Contents[index := value];
        forall L | 0 <= L < size && L != index
          ensures Contents[L] == buffer[Slot(startIndex, L, capacity)]
        {
          SlotInjective(startIndex, L, index, capacity);
        }
      }
    }

    /** unionCDA: move every element of `donor`, front first, to the back. */
    method Union(donor: CircularArray<T>)
      requires Valid() && donor.Valid() && Repr !! donor.Repr
      modifies Repr, donor.Repr
      ensures Valid() && fresh(Repr - old(Repr))
      ensures donor.Valid() && fresh(donor.Repr - old(donor.Repr))
      ensures Contents == old(Contents) + old(donor.Contents)
      ensures donor.Contents == []
    {
      ghost var moved := 0;
      while donor.Size() > 0
        invariant Valid() && fresh(Repr - old(Repr))
        invariant donor.Valid() && fresh(donor.Repr - old(donor.Repr))
        invariant Repr !! donor.Repr
        invariant 0 <= moved <= |old(donor.Contents)|
        invariant donor.Contents == old(donor.Contents)[moved..]
        invariant Contents == old(Contents) + old(donor.Contents)[..moved]
        decreases |donor.Contents|
      {
        var v := donor.RemoveFront();
        InsertBack(v);
        assert old(donor.Contents)[..moved + 1] == old(donor.Contents)[..moved] + [v];
        moved := moved + 1;
      }
      assert old(donor.Contents)[..moved] == old(donor.Contents);
    }
  }
}
