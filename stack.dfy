/** The unbounded stack of stack.c: a thin layer over the growable array,
    whose back is the top of the stack. */
module Stacks {
  import opened DynamicArrays

  class Stack<T(0)> {
    const items: DynamicArray<T>  // the C struct's `array` field

    /** The abstract value: bottom first, top last. */
    ghost var Contents: seq<T>
    ghost var Repr: set<object>

    ghost predicate Valid()
      reads this, Repr
      ensures Valid() ==> this in Repr
    {
      && this in Repr
      && items in Repr
      && items.Repr <= Repr
      && this !in items.Repr
      && Repr == {this} + items.Repr
      && items.Valid()
      && Contents == items.Contents
    }

    /** newSTACK */
    constructor ()
      ensures Valid() && fresh(Repr)
      ensures Contents == []
    {
      items := new DynamicArray();
      new;
      Contents := [];
      Repr := {this} + items.Repr;
    }

    /** sizeSTACK */
    function Size(): (n: nat)
      reads this, Repr
      requires Valid()
      ensures n == |Contents|
    {
      items.Size()
    }

    /** push: store at index size of the array, i.e. append at the top. */
    method Push(value: T)
      requires Valid()
      modifies Repr
      ensures Valid() && fresh(Repr - old(Repr))
      ensures Contents == old(Contents) + [value]
    {
      var _ := items.Set(items.Size(), value);
      Contents := items.Contents;
      Repr := {this} + items.Repr;
    }

    /** pop: remove and hand back the top; the C code asserts non-empty. */
    method Pop() returns (top: T)
      requires Valid() && |Contents| > 0
      modifies Repr
      ensures Valid() && fresh(Repr - old(Repr))
      ensures top == old(Contents)[|old(Contents)| - 1]
      ensures Contents == old(Contents)[..|old(Contents)| - 1]
    {
      top := items.Remove(items.Size() - 1);
      Contents := items.Contents;
      Repr := {this} + items.Repr;
    }

    /** peekSTACK: the top, without removing it; the C code asserts non-empty. */
    method Peek() returns (top: T)
      requires Valid() && |Contents| > 0
      ensures top == Contents[|Contents| - 1]
    {
      top := items.Get(items.Size() - 1);
    }
  }

  function Reverse<T>(s: seq<T>): (r: seq<T>)
    ensures |r| == |s|
    ensures forall i :: 0 <= i < |s| ==> r[i] == s[|s| - 1 - i]
  {
    if s == [] then [] else Reverse(s[1..]) + [s[0]]
  }

  /** Last in, first out: pushing every element of `xs` and then popping
      until the stack is empty yields `xs` reversed. */
  method PushAllPopAll<T(0)>(xs: seq<T>) returns (ys: seq<T>)
    ensures ys == Reverse(xs)
  {
    var st := new Stack<T>();
    var i := 0;
    while i < |xs|
      invariant 0 <= i <= |xs|
      invariant st.Valid() && fresh(st.Repr)
      invariant st.Contents == xs[..i]
    {
      st.Push(xs[i]);
      assert xs[..i + 1] == xs[..i] + [xs[i]];
      i := i + 1;
    }
    ys := [];
    while st.Size() > 0
      invariant st.Valid() && fresh(st.Repr)
      invariant |st.Contents| + |ys| == |xs|
      invariant st.Contents == xs[..|st.Contents|]
      invariant forall k :: 0 <= k < |ys| ==> ys[k] == xs[|xs| - 1 - k]
      decreases |st.Contents|
    {
      var top := st.Pop();
      ys := ys + [top];
    }
  }
}
