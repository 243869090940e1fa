# Vector<T>: a verified model of a hand-written growable array

This project models `Vector<T>` from `MyVector.cc`. It is a generic dynamic array with three fields:

- `elements`, a heap buffer;
- `capacity`, the length of that buffer;
- `size`, the number of elements in use.

Its operations are `push_back` with a doubling growth policy, the two checked `operator[]` overloads, `insert` with a right shift, `pop_back`, `clear`, and a grow-only `reserve` that reallocates and copies. There are also `getSize`, `getCapacity`, deep-copy construction and copy assignment.

The project has two modules:

- `VectorSpec` (`vector_spec.dfy`) models the vector as a value. `VecState` holds the logical contents `elements[0..size)` and the capacity. Each operation is a function on that value, and its `ensures` state what the operation means. Lemmas relate the operations to each other:
  - insert at `size` is push_back;
  - pop_back undoes push_back;
  - reserve is idempotent, and `reserve(n)` with `n` above the size prevents the next reallocation;
  - starting from a default-constructed vector, any non-empty run of push_back calls leaves a capacity equal to the least power of two not below the size;
  - any sequence of mutating calls keeps `size <= capacity` and never shrinks the buffer.
- `MyVector` (`vector.dfy`) is the class itself. It has an `array<T>` field `elements` and the fields `capacity` and `size`. A ghost field `Contents` equals `elements[..size]`, and `Valid()` ties the fields together with `size <= capacity`. Each of `reserve`, `push_back`, `insert`, `pop_back`, `clear` and the subscript write is proved to leave `State()` equal to the matching `VectorSpec` function applied to the state before the call. The copy constructor and copy assignment have no `VectorSpec` function; they are proved to give the state of the vector copied from. `reserve` allocates a fresh array and copies the prefix into it. `insert` shifts the elements in place with the source's backward loop, written as the helper method `ShiftRight`.

`std::out_of_range` is modelled as a returned error value, `Err(OutOfRange)`, and not as a precondition. In the source the throw happens before any field is written, so a call that returns the error leaves the object unchanged. The contracts state this.

## Model

| member | source | states |
|---|---|---|
| VectorSpec.GrownCapacity | MyVector.cc:61-65 | the capacity requested by a full vector is strictly larger than the old one: 1 from 0, otherwise double |
| VectorSpec.Reserve | MyVector.cc:179-189 | reserve only grows: if n <= capacity the state is unchanged; otherwise capacity becomes exactly n; contents are preserved in both cases |
| VectorSpec.GrowIfFull | MyVector.cc:113-116 | growing a full buffer keeps the contents and always leaves room for one more element |
| VectorSpec.PushBack | MyVector.cc:59-68 | size goes up by 1, the earlier elements are unchanged, the last one is the pushed value; capacity grows by GrownCapacity exactly when the buffer was full and is unchanged otherwise; size <= capacity is kept |
| VectorSpec.Insert | MyVector.cc:107-126 | fails with OutOfRange exactly when i > size; otherwise size goes up by 1, size <= capacity is kept, and capacity grows by the push_back rule only when the buffer was full |
| VectorSpec.InsertShiftsRight | MyVector.cc:117-124 | after a successful insert(i, x), positions below i are unchanged, position i holds x, and every later element is the old one from one place to the left |
| VectorSpec.PopBack | MyVector.cc:129-135 | on an empty vector nothing changes; otherwise the old contents are the new contents followed by the removed last element; capacity never changes |
| VectorSpec.Clear | MyVector.cc:138-141 | size becomes 0 and capacity is unchanged |
| VectorSpec.Update | MyVector.cc:83-90 | a write through the non-const subscript fails with OutOfRange exactly when i >= size; otherwise only position i changes, and size and capacity stay the same |
| VectorSpec.InsertAtEndIsPushBack | MyVector.cc:107-126 | insert at position size gives the same contents and capacity as push_back |
| VectorSpec.InsertAtFront | MyVector.cc:117-124 | insert at position 0 puts the value in front of all the old contents |
| VectorSpec.PopBackUndoesPushBack | MyVector.cc:129-135 | pop_back after push_back restores the contents, and the capacity is not below the original one |
| VectorSpec.ReserveAvoidsRegrowth | MyVector.cc:179-189 | after reserve(n) with n > size, the next push_back appends without changing the capacity |
| VectorSpec.ReserveIdempotent | MyVector.cc:179-189 | calling reserve(n) a second time changes nothing |
| VectorSpec.PushBackKeepsTight | MyVector.cc:59-68 | push_back keeps "no buffer, or a power-of-two capacity at least size and below twice size" |
| VectorSpec.InsertKeepsTight | MyVector.cc:113-116 | insert keeps the same power-of-two growth invariant |
| VectorSpec.PushAllAppends | MyVector.cc:59-68 | a run of push_back calls appends its arguments in order, keeps size <= capacity and never lowers the capacity |
| VectorSpec.PushAllKeepsTight | MyVector.cc:61-65 | a run of push_back calls preserves the power-of-two growth invariant |
| VectorSpec.PushAllFromEmpty | MyVector.cc:16-20 | pushing xs onto a default-constructed vector gives contents xs; the capacity is 0 for no elements, and otherwise the least power of two not below the size |
| VectorSpec.Apply | MyVector.cc:57-141 | every single mutating call keeps size <= capacity and never shrinks the capacity |
| VectorSpec.RunKeepsInvariant | MyVector.cc:57-189 | every sequence of push_back, insert, subscript write, pop_back, clear and reserve keeps size <= capacity and never shrinks the capacity |
| VectorSpec.InsertOwnElementAsWritten | MyVector.cc:107-126 | insert(i, v[j]) on a buffer with room, with `value` a reference to v[j] read after the shift: OutOfRange exactly when i > size, otherwise the element stored at i is v[j] when j <= i and v[j - 1] when j > i |
| VectorSpec.InsertOwnElementAsWrittenAgrees | MyVector.cc:117-124 | the aliased insert gives the intended result insert(i, copy of v[j]) if and only if j <= i or v[j - 1] == v[j] |
| VectorSpec.InsertOwnElementCounterexample | MyVector.cc:117-124 | on contents [1, 2] with capacity 3, insert(0, v[1]) gives [1, 1, 2] where [2, 1, 2] is intended |
| MyVector.CopyPrefix | MyVector.cc:183-184 | std::copy of the first n elements into a distinct buffer: that prefix becomes equal and the rest of the destination is untouched |
| MyVector.ShiftRight | MyVector.cc:117-122 | the backward loop of insert moves elements [index, size) one place right; slots below index, the slot at index and slots above size keep their old values |
| MyVector.SpliceByShift | MyVector.cc:117-124 | shifting the suffix right and then writing the value at index gives old[..index] + [value] + old[index..] |
| MyVector.Vector.constructor | MyVector.cc:16-20 | a new vector is valid, empty and has capacity 0 |
| MyVector.Vector.Copy | MyVector.cc:29-35 | the copy has its own fresh buffer, with the same size, capacity and contents as the original |
| MyVector.Vector.Assign | MyVector.cc:43-55 | after assignment the state equals the source's old state; self-assignment changes nothing; otherwise the buffer is freshly allocated |
| MyVector.Vector.GetSize | MyVector.cc:71-74 | returns the number of logical elements |
| MyVector.Vector.GetCapacity | MyVector.cc:77-80 | returns the buffer length, which is at least the size |
| MyVector.Vector.At | MyVector.cc:83-100 | both subscript overloads: OutOfRange exactly when index >= size, otherwise the element at that position of the contents |
| MyVector.Vector.SetAt | MyVector.cc:83-90 | a write through the non-const subscript behaves as VectorSpec.Update and leaves the object unchanged on OutOfRange |
| MyVector.Vector.Reserve | MyVector.cc:179-189 | the new state is VectorSpec.Reserve of the old; on growth the buffer is a fresh array, otherwise nothing changes |
| MyVector.Vector.PushBack | MyVector.cc:59-68 | the new state is VectorSpec.PushBack of the old; the buffer is the old array or a fresh one |
| MyVector.Vector.Insert | MyVector.cc:107-126 | the outcome and the new state are VectorSpec.Insert of the old state; on OutOfRange the object and its buffer are unchanged |
| MyVector.Vector.InsertOwnElementAsWritten | MyVector.cc:107-126 | the loop of insert followed by a read of elements[j] through the aliasing reference gives exactly VectorSpec.InsertOwnElementAsWritten, in the same buffer |
| MyVector.Vector.InsertOwnElement | MyVector.cc:107-126 | insert(index, v[j]) with the argument copied first gives VectorSpec.Insert with the old v[j], including after reallocation |
| MyVector.Vector.PushBackOwnElement | MyVector.cc:59-68 | push_back(v[j]) with the argument copied first gives VectorSpec.PushBack with the old v[j], including after reallocation |
| MyVector.Vector.PopBack | MyVector.cc:129-135 | the new state is VectorSpec.PopBack of the old, in the same buffer |
| MyVector.Vector.Clear | MyVector.cc:138-141 | the new state is VectorSpec.Clear of the old, in the same buffer |

## Findings

| source | as written | input that shows it | evidently intended | confidence | as-written member | corrected member |
|---|---|---|---|---|---|---|
| MyVector.cc:107-126 | `insert` takes `const T &value` and reads it only at line 124, after the shift at lines 117-122 has overwritten the slots above `index` | contents [1, 2], capacity 3, `insert(0, v[1])` stores 1 and gives [1, 1, 2] | store the value `v[j]` had at the call, giving [2, 1, 2] | high, not executed | VectorSpec.InsertOwnElementAsWritten | MyVector.Vector.InsertOwnElement |

## Left out

- `main` (MyVector.cc:193-297) reads commands from standard input, prints results and returns -1 on a bad `get` index. It is input/output plumbing around the class.
- `printElements` (MyVector.cc:169-176) only writes to standard output.
- The iterators `begin`/`end` (MyVector.cc:145-166) are raw pointers into the buffer. Their range is the index range `0..size`, which `Contents` already describes.
- The destructor and `delete[]` (MyVector.cc:23-26, 48, 185) are not modelled. Reallocation allocates a fresh Dafny array and drops the old one to the garbage collector.
- The C++ exception mechanism is not modelled. `std::out_of_range` becomes the error value `Err(OutOfRange)`, returned before any state changes.
- VectorSpec.GrownCapacity: `size_t` is modelled as an unbounded `nat`, so `2 * capacity` never wraps around. In the source it would wrap only at capacities that cannot be allocated.
- MyVector.Vector.At: it returns the element's value, not a reference into the buffer. Writing through the non-const reference is modelled separately as `SetAt`. Aliasing between such a reference and later reallocations is not modelled.
- MyVector.Vector.constructor: `new T[n]` default-constructs the slots, so the element type is required to have a default value (`T(0)`). The model does not observe the buffer slots beyond `size`. This includes the stale element that `pop_back` leaves behind.
- MyVector.Vector.PushBack: the argument is taken by value. The source takes `const T &value` (MyVector.cc:59). When that reference points into the vector's own full buffer, `reserve` frees the buffer (line 185) before line 67 reads the value, which is undefined behaviour in C++. The model gives no meaning to that case; `PushBackOwnElement` gives the intended result, with the argument copied first.
- MyVector.Vector.Insert: the argument is taken by value. The source takes `const T &value` (MyVector.cc:107). With a reference into the vector's own buffer, the read at line 124 happens after the shift; `InsertOwnElementAsWritten` models this case when the buffer has room. On a full buffer the reference dangles after `reserve` frees the old buffer (line 185), which is undefined behaviour and is not modelled.
