/**
 * ArrayStack<T>: the Stack interface over a growable array. The live elements
 * are data[0..top+1]; top is -1 on an empty stack; a slot above top holds no
 * element (Java's null, here None). A push on a full array first doubles the
 * array, copying the elements to the same indices.
 */
module ArrayStack {
  import Stack

  datatype Option<T> = None | Some(value: T)

  /** The capacity of a stack built without one. */
  const DefaultCapacity: nat := 10

  /** The length expandCapacity gives the new array: twice the old one. */
  function DoubledLength(n: nat): (m: nat)
    ensures n > 0 ==> n < m
    ensures n == 0 ==> m == 0
  {
    n * 2
  }

  /**
   * Whether push's write lands inside the array, for an array of the given
   * length and the given top index: the array is doubled first when top is
   * its last index, then top is incremented and data[top] written.
   */
  predicate PushWriteInBounds(length: nat, top: int)
  {
    var newLength := if top == length - 1 then DoubledLength(length) else length;
    0 <= top + 1 < newLength
  }

  /**
   * With capacity 0, which the constructor as written accepts, the array is
   * full while the stack is empty, doubling leaves its length 0, and the
   * first push writes outside the array.
   */
  lemma ZeroCapacityPushOutOfBounds()
    ensures !PushWriteInBounds(0, -1)
  {
  }

  /** With a positive capacity every push has room, whether or not it grows the array. */
  lemma PushHasRoom(length: nat, top: int)
    requires 0 < length && -1 <= top < length
    ensures PushWriteInBounds(length, top)
  {
  }

  class ArrayStack<T> {
    var data: array<Option<T>>
    var top: int
    /** The abstract stack, bottom first. */
    ghost var Contents: seq<T>

    /** The representation invariant. */
    ghost predicate Valid()
      reads this, data
    {
      && 0 < data.Length
      && -1 <= top < data.Length
      && |Contents| == top + 1
      && (forall i :: 0 <= i <= top ==> data[i] == Some(Contents[i]))
      && (forall i :: top < i < data.Length ==> data[i] == None)
    }

    /** ArrayStack(): an empty stack with the default capacity. */
    constructor ()
      ensures Valid() && fresh(data)
      ensures Contents == [] && data.Length == DefaultCapacity
    {
      data := new Option<T>[DefaultCapacity](_ => None);
      top := -1;
      Contents := [];
    }

    /** ArrayStack(capacity): an empty stack whose array has the given length. */
    constructor WithCapacity(capacity: nat)
      requires 0 < capacity
      ensures Valid() && fresh(data)
      ensures Contents == [] && data.Length == capacity
    {
      data := new Option<T>[capacity](_ => None);
      top := -1;
      Contents := [];
    }

    /** size(): the number of elements, read off top. */
    function Size(): (n: int)
      reads this, data
      requires Valid()
      ensures n == Stack.Size(Contents)
    {
      top + 1
    }

    /** isEmpty(): whether top is -1. */
    predicate IsEmpty()
      reads this, data
      requires Valid()
      ensures IsEmpty() <==> Stack.IsEmpty(Contents)
    {
      top == -1
    }

    /** peek(): the element at top, or EmptyStackException; changes nothing. */
    function Peek(): (r: Stack.Result<T>)
      reads this, data
      requires Valid()
      ensures r == Stack.Peek(Contents)
    {
      if IsEmpty() then Stack.EmptyStackException else Stack.Ok(data[top].value)
    }

    /**
     * push(element): grows the array when it is full, then stores element in
     * the slot above top.
     */
    method Push(element: T)
      requires Valid()
      modifies this, data
      ensures Valid()
      ensures Contents == Stack.Push(old(Contents), element)
      ensures old(top) == old(data.Length) - 1 ==> fresh(data) && data.Length == DoubledLength(old(data.Length))
      ensures old(top) < old(data.Length) - 1 ==> data == old(data)
    {
      if top == data.Length - 1 {
        ExpandCapacity();
      }
      top := top + 1;
      data[top] := Some(element);
      Contents := Contents + [element];
    }

    /**
     * pop(): throws EmptyStackException on an empty stack and changes nothing;
     * otherwise returns the element at top, clears its slot and decrements top.
     */
    method Pop() returns (r: Stack.Result<T>)
      requires Valid()
      modifies this, data
      ensures Valid() && data == old(data)
      ensures (r, Contents) == Stack.Pop(old(Contents))
      ensures old(top) == -1 ==> unchanged(this, data)
      ensures old(top) >= 0 ==> data[old(top)] == None
      ensures forall i :: 0 <= i < old(top) ==> data[i] == old(data[i])
    {
      if IsEmpty() {
        return Stack.EmptyStackException;
      }
      var element := data[top].value;
      data[top] := None;
      top := top - 1;
      Contents := Contents[..top + 1];
      r := Stack.Ok(element);
    }

    /**
     * expandCapacity(): replaces the array by one twice as long holding the same
     * elements at the same indices; the abstract stack is unchanged.
     */
    method ExpandCapacity()
      requires Valid()
      modifies this
      ensures Valid() && top == old(top) && Contents == old(Contents)
      ensures fresh(data) && data.Length == DoubledLength(old(data.Length))
      ensures data[..old(data.Length)] == old(data[..])
    {
      var grown := new Option<T>[DoubledLength(data.Length)](_ => None);
      // the copy of System.arraycopy(array, 0, newArray, 0, array.length)
      var i := 0;
      while i < data.Length
        invariant unchanged(this)
        invariant 0 <= i <= data.Length
        invariant forall j :: 0 <= j < i ==> grown[j] == data[j]
        invariant forall j :: i <= j < grown.Length ==> grown[j] == None
      {
        grown[i] := data[i];
        i := i + 1;
      }
      data := grown;
    }
  }

  /** push(x) followed by pop() returns x and restores the previous abstract stack. */
  method PushThenPop<T>(st: ArrayStack<T>, x: T) returns (r: Stack.Result<T>)
    requires st.Valid()
    modifies st, st.data
    ensures st.Valid()
    ensures r == Stack.Ok(x) && st.Contents == old(st.Contents)
  {
    st.Push(x);
    r := st.Pop();
    Stack.PushThenPop(old(st.Contents), x);
  }
}
