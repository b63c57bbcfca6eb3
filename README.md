# ArrayStack and the Stack interface, in Dafny

This project models the last-in-first-out stack of the AlgoBook repository:
the `Stack<E>` interface and its array-backed implementation `ArrayStack<T>`.

- `Stack.dfy` (module `Stack`) gives the interface's abstract contract. The
  state of a stack is a `seq<E>` whose last element is the top. The module has
  functions for `size`, `isEmpty`, `push`, `pop` and `peek`. `pop` and `peek`
  return `Result<E>`, which is either `Ok(value)` or `EmptyStackException`.
  The lemmas prove the contract's promises: the push/pop round trip in both
  directions, that `pop` and `peek` agree, that both throw exactly on an empty
  stack, and last-in-first-out order over any number of pushes and pops.
- `ArrayStack.dfy` (module `ArrayStack`) models the class `ArrayStack<T>`. It
  keeps the two Java fields: the backing array `data` and the index `top`.
  A slot holds `Option<T>`, and `None` stands for Java's `null`.
- The representation invariant `Valid()` says three things:
  - `-1 <= top < data.Length`, and the array is never empty;
  - the live elements `data[0..top+1]` are the ghost abstract stack `Contents`;
  - every slot above `top` is `None`, so `Pop` must clear the slot it vacates.
- Each method is proved against the `Stack` functions applied to `Contents`.
  `Push` calls `ExpandCapacity` when the array is full. `ExpandCapacity`
  allocates an array of twice the length and copies the elements in a loop to
  the same indices, as `System.arraycopy` does.

## Model

| member | source | states |
|---|---|---|
| `Stack.PushAll` | java/stack/Stack.java:24-31 | pushing the elements of a sequence one at a time appends them, in order, on top of the stack |
| `Stack.PopMany` | java/stack/Stack.java:33-41 | popping n times yields exactly n results |
| `Stack.IsEmptyIffSizeZero` | java/stack/Stack.java:6-22 | isEmpty() holds if and only if size() is 0 |
| `Stack.PushThenPeek` | java/stack/Stack.java:24-31 | push(e) increases size() by exactly 1, leaves the stack non-empty, puts e where peek() sees it, and leaves the elements below unchanged |
| `Stack.PushThenPop` | java/stack/Stack.java:24-41 | pop() after push(e) returns e and restores the previous stack |
| `Stack.PopThenPush` | java/stack/Stack.java:24-41 | on a non-empty stack pop() succeeds, and pushing back what it returned restores the stack |
| `Stack.PopAgreesWithPeek` | java/stack/Stack.java:33-51 | pop() and peek() return the same top element; both throw EmptyStackException exactly when the stack is empty; a failed pop leaves the stack as it was, and a successful one removes only the top |
| `Stack.LastInFirstOut` | java/stack/Stack.java:1-4 | after pushing xs, as many pops as xs has elements return the elements of xs in reverse order and leave the original stack |
| `ArrayStack.DoubledLength` | java/stack/ArrayStack.java:83-84 | the grown array is strictly longer than a non-empty old one, and stays at length 0 when the old one is empty |
| `ArrayStack.ZeroCapacityPushOutOfBounds` | java/stack/ArrayStack.java:25-39 | on a stack constructed with capacity 0, the first push writes outside the array even after expandCapacity |
| `ArrayStack.PushHasRoom` | java/stack/ArrayStack.java:35-39 | for a positive array length and a valid top, the write of push is always inside the array, whether or not it grew |
| `ArrayStack.ArrayStack.constructor` | java/stack/ArrayStack.java:16-18 | a new stack is valid and empty, and its array has the default capacity 10 |
| `ArrayStack.ArrayStack.WithCapacity` | java/stack/ArrayStack.java:25-28 | a new stack is valid and empty, and its array has the requested capacity |
| `ArrayStack.ArrayStack.Size` | java/stack/ArrayStack.java:79-81 | top + 1 is the number of elements of the abstract stack |
| `ArrayStack.ArrayStack.IsEmpty` | java/stack/ArrayStack.java:71-73 | top == -1 holds exactly when the abstract stack is empty |
| `ArrayStack.ArrayStack.Peek` | java/stack/ArrayStack.java:60-65 | returns the top element of the abstract stack, or EmptyStackException when it is empty; changes nothing |
| `ArrayStack.ArrayStack.Push` | java/stack/ArrayStack.java:34-40 | keeps the invariant; the abstract stack becomes the old one with the element on top; a full array is replaced by a fresh one of double length, otherwise the same array is kept |
| `ArrayStack.ArrayStack.Pop` | java/stack/ArrayStack.java:46-54 | keeps the invariant and the array; returns and removes the top element as the interface's pop does; on an empty stack returns EmptyStackException and changes nothing; clears the vacated slot and leaves the slots below it untouched |
| `ArrayStack.ArrayStack.ExpandCapacity` | java/stack/ArrayStack.java:83-87 | replaces the array by a fresh one of double length holding the old elements at the same indices; top and the abstract stack are unchanged |
| `ArrayStack.PushThenPop` | java/stack/ArrayStack.java:34-53 | on an ArrayStack, push(x) followed by pop() returns x and restores the previous abstract stack |

## Findings

| source | as written | input that shows it | evidently intended | confidence | as-written member | corrected member |
|---|---|---|---|---|---|---|
| java/stack/ArrayStack.java:25-39 | the constructor accepts capacity 0. push then finds the array full, doubles its length 0 to 0, and writes `array[0]`, which throws ArrayIndexOutOfBoundsException | `new ArrayStack<>(0)` followed by `push(x)` | push always succeeds, so the capacity must be positive | high; not executed | `ArrayStack.ZeroCapacityPushOutOfBounds` | `ArrayStack.ArrayStack.WithCapacity` |

The corrected constructor requires a positive capacity. `Valid()` carries
`0 < data.Length`, so `Push` is proved to write inside the array on every
call. `ArrayStack.PushHasRoom` states the same fact on the index arithmetic.

## Left out

- java/maths/RootFinding.java is not part of this model. It is floating-point
  numerics over `double` with an opaque `Function<Double, Double>` argument,
  and its secant and fixed-point loops have no iteration bound. Its `main` is
  console output only.
- `Stack<E>` is a module of specification functions over `seq<E>`, not an
  interface type. There is one implementation, so dynamic dispatch through the
  interface is not modelled.
- Java `null` elements are not modelled: `push(null)` cannot be told apart
  from an empty slot in Java. In the model an element is any `T`, and an empty
  slot is `None`.
- Java's 32-bit `int` is not modelled. `top + 1` in `size` and
  `array.length * 2` in `expandCapacity` use unbounded integers, so the
  overflow of `array.length * 2` past 2^31 - 1 is not captured.
- `ArrayStack.ArrayStack.WithCapacity` requires a positive capacity. Java
  accepts 0 (see Findings), and a negative capacity throws
  NegativeArraySizeException.
- The unchecked cast `(T[]) new Object[...]` is left out. The garbage-collection
  purpose of clearing the popped slot is left out. The O(1) and amortized
  complexity claims are left out. The model does keep the cleared slot itself.
- The no-argument constructor does not delegate to the other one as
  `this(DEFAULT_CAPACITY)` does, because Dafny constructors cannot call one
  another. Its body repeats the other constructor's body with capacity 10.
