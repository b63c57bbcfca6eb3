/**
 * The abstract contract of the Stack<E> interface: a last-in-first-out
 * collection whose state is a sequence, the top of the stack being its last
 * element. Every implementation (here: ArrayStack) is proved against these
 * functions.
 */
module Stack {

  /** The outcome of pop and peek: a value, or the EmptyStackException they throw. */
  datatype Result<E> = Ok(value: E) | EmptyStackException

  /** size(): the number of elements in the stack. */
  function Size<E>(s: seq<E>): nat
  {
    |s|
  }

  /** isEmpty(): whether the stack holds no element. */
  predicate IsEmpty<E>(s: seq<E>)
  {
    s == []
  }

  /** push(e): the stack after e is placed on top. */
  function Push<E>(s: seq<E>, e: E): seq<E>
  {
    s + [e]
  }

  /** peek(): the top element, or EmptyStackException on an empty stack. */
  function Peek<E>(s: seq<E>): Result<E>
  {
    if s == [] then EmptyStackException else Ok(s[|s| - 1])
  }

  /**
   * pop(): what pop returns together with the stack afterwards. On an empty
   * stack it throws and the stack is left as it was.
   */
  function Pop<E>(s: seq<E>): (Result<E>, seq<E>)
  {
    if s == [] then (EmptyStackException, s) else (Ok(s[|s| - 1]), s[..|s| - 1])
  }

  /** The stack after pushing the elements of xs, first to last, one push at a time. */
  function PushAll<E>(s: seq<E>, xs: seq<E>): (r: seq<E>)
    ensures r == s + xs
  {
    if xs == [] then s else Push(PushAll(s, xs[..|xs| - 1]), xs[|xs| - 1])
  }

  /** The results of n pops in a row, in the order they were returned, and the stack left behind. */
  function PopMany<E>(s: seq<E>, n: nat): (r: (seq<Result<E>>, seq<E>))
    ensures |r.0| == n
  {
    if n == 0 then ([], s)
    else
      var (x, t) := Pop(s);
      var (xs, u) := PopMany(t, n - 1);
      ([x] + xs, u)
  }

  /** isEmpty() holds exactly when size() is 0. */
  lemma IsEmptyIffSizeZero<E>(s: seq<E>)
    ensures IsEmpty(s) <==> Size(s) == 0
  {
  }

  /**
   * push(e) adds exactly one element, puts e on top and leaves the elements
   * already on the stack where they were.
   */
  lemma PushThenPeek<E>(s: seq<E>, e: E)
    ensures Size(Push(s, e)) == Size(s) + 1
    ensures Peek(Push(s, e)) == Ok(e)
    ensures Push(s, e)[..Size(s)] == s
    ensures !IsEmpty(Push(s, e))
  {
  }

  /** pop() after push(e) returns e and restores the previous stack. */
  lemma PushThenPop<E>(s: seq<E>, e: E)
    ensures Pop(Push(s, e)) == (Ok(e), s)
  {
    assert Push(s, e)[..|s|] == s;
  }

  /** A successful pop() is undone by pushing back what it returned. */
  lemma PopThenPush<E>(s: seq<E>)
    requires !IsEmpty(s)
    ensures Pop(s).0.Ok?
    ensures Push(Pop(s).1, Pop(s).0.value) == s
  {
  }

  /**
   * pop() and peek() agree on what they return; both throw exactly on an empty
   * stack; a successful pop() removes one element and a failed one changes nothing.
   */
  lemma PopAgreesWithPeek<E>(s: seq<E>)
    ensures Pop(s).0 == Peek(s)
    ensures Peek(s) == EmptyStackException <==> IsEmpty(s)
    ensures IsEmpty(s) ==> Pop(s).1 == s
    ensures !IsEmpty(s) ==> Size(Pop(s).1) == Size(s) - 1 && Pop(s).1 == s[..Size(s) - 1]
  {
  }

  /**
   * Last in, first out: pushing xs and then popping |xs| times returns the
   * elements of xs in reverse order and leaves the original stack.
   */
  lemma {:induction false} LastInFirstOut<E>(s: seq<E>, xs: seq<E>)
    ensures PopMany(PushAll(s, xs), |xs|).1 == s
    ensures forall i :: 0 <= i < |xs| ==> PopMany(PushAll(s, xs), |xs|).0[i] == Ok(xs[|xs| - 1 - i])
  {
    if xs != [] {
      var init, y := xs[..|xs| - 1], xs[|xs| - 1];
      LastInFirstOut(s, init);
      var below := PushAll(s, init);
      assert PushAll(s, xs) == Push(below, y);
      PushThenPop(below, y);
      var (rs, rest) := PopMany(below, |init|);
      assert PopMany(PushAll(s, xs), |xs|) == ([Ok(y)] + rs, rest);
      forall i | 0 <= i < |xs|
        ensures PopMany(PushAll(s, xs), |xs|).0[i] == Ok(xs[|xs| - 1 - i])
      {
        if i > 0 {
          assert ([Ok(y)] + rs)[i] == rs[i - 1] == Ok(init[|init| - 1 - (i - 1)]);
        }
      }
    }
  }
}
