/** The resize policy shared by the growable array (da.c) and the circular
    growable array (cda.c): capacity starts at 1, doubles when an insertion
    finds the buffer full, and after a removal halves once the buffer is less
    than a quarter full (or drops to 1 when it is empty). */
module Capacity {

  /** `Some` for a value handed back, `None` for the null pointer the C code returns. */
  datatype Option<T> = None | Some(value: T)

  ghost predicate IsPowerOfTwo(n: nat)
    decreases n
  {
    n == 1 || (n >= 2 && n % 2 == 0 && IsPowerOfTwo(n / 2))
  }

  /** The invariant both arrays keep between operations: size never exceeds
      capacity, capacity is a power of two, and no over-large buffer survives
      (capacity is 1 or at least a quarter of it is in use). */
  ghost predicate Balanced(size: nat, capacity: nat)
  {
    && 1 <= capacity
    && IsPowerOfTwo(capacity)
    && size <= capacity
    && (capacity == 1 || size >= capacity / 4)
  }

  /** Capacity after an insertion into an array holding `size` elements. */
  function GrownCapacity(size: nat, capacity: nat): nat
  {
    if size == capacity then 2 * capacity else capacity
  }

  /** Whether a removal that leaves `size` elements shrinks the buffer. */
  predicate ShouldShrink(size: nat, capacity: nat)
  {
    size < capacity / 4 || size == 0
  }

  /** Capacity chosen by halveCap once a removal has left `size` elements. */
  function HalvedCapacity(size: nat, capacity: nat): nat
  {
    if size == 0 then 1 else capacity / 2
  }

  /** Capacity after a removal that leaves `size` elements. */
  function ShrunkCapacity(size: nat, capacity: nat): nat
  {
    if ShouldShrink(size, capacity) then HalvedCapacity(size, capacity) else capacity
  }

  lemma {:induction false} PowerOfTwoMultiple(n: nat)
    requires IsPowerOfTwo(n) && n >= 8
    ensures n % 8 == 0
  {
    assert n / 2 >= 4;
    assert IsPowerOfTwo(n / 2);
    assert n / 4 >= 2 && IsPowerOfTwo(n / 4);
    assert n / 4 % 2 == 0;
  }

  /** An insertion keeps the array balanced and always finds a free slot:
      the capacity doubles exactly when the array was full. */
  lemma InsertKeepsBalanced(size: nat, capacity: nat)
    requires Balanced(size, capacity)
    ensures size < GrownCapacity(size, capacity)
    ensures Balanced(size + 1, GrownCapacity(size, capacity))
    ensures GrownCapacity(size, capacity) == 2 * capacity <==> size == capacity
  {
    if size == capacity {
      assert (2 * capacity) / 2 == capacity;
    }
  }

  /** A removal from a balanced array of `size + 1` elements, followed by the
      shrink rule, leaves a balanced array of `size` elements. */
  lemma {:induction false} RemoveKeepsBalanced(size: nat, capacity: nat)
    requires Balanced(size + 1, capacity)
    ensures Balanced(size, ShrunkCapacity(size, capacity))
    ensures ShouldShrink(size, capacity) ==> size <= HalvedCapacity(size, capacity)
  {
    if ShouldShrink(size, capacity) && size != 0 {
      // size + 1 >= capacity / 4 > size, so size == capacity / 4 - 1 >= 1
      assert capacity >= 8;
      PowerOfTwoMultiple(capacity);
      var k := capacity / 8;
      assert capacity == 8 * k;
      assert capacity / 2 == 4 * k && capacity / 4 == 2 * k;
      assert (capacity / 2) / 4 == k;
      assert IsPowerOfTwo(capacity / 2);
    }
  }
}
