/**
  The class Vector<T> of MyVector.cc: a heap buffer `elements`, its
  `capacity` and the logical `size`, updated in place.

  Every method is proved against the function of the same operation in
  VectorSpec: the abstract state State() after the call is that function
  applied to the state before it. std::out_of_range is returned as an error
  value, and a call that returns it changes nothing, as the throw in the
  source happens before any field is written.
 */
module MyVector {
  import opened VectorSpec

  /** std::copy(src, src + n, dst) into a buffer distinct from the source. */
  method CopyPrefix<T>(src: array<T>, dst: array<T>, n: nat)
    requires n <= src.Length && n <= dst.Length && src != dst
    modifies dst
    ensures dst[..n] == src[..n]
    ensures dst[n..] == old(dst[n..])
  {
    var i := 0;
    while i < n
      invariant 0 <= i <= n
      invariant dst[..i] == src[..i]
      invariant dst[n..] == old(dst[n..])
    {
      dst[i] := src[i];
      i := i + 1;
    }
  }

  /** The loop of insert: moves a[index..n) one place right, to a[index+1..n+1). */
  method ShiftRight<T>(a: array<T>, index: nat, n: nat)
    requires index <= n < a.Length
    modifies a
    ensures a[..index] == old(a[..index]) && a[index] == old(a[index])
    ensures a[index + 1..n + 1] == old(a[index..n])
    ensures a[n + 1..] == old(a[n + 1..])
  {
    var i := n;
    while i > index
      invariant index <= i <= n
      invariant forall k :: 0 <= k <= i ==> a[k] == old(a[k])
      invariant forall k :: i < k <= n ==> a[k] == old(a[k - 1])
      invariant a[n + 1..] == old(a[n + 1..])
    {
      a[i] := a[i - 1];
      i := i - 1;
    }
  }

  /** After the shift, writing the value at index yields the spliced contents. */
  lemma SpliceByShift<T>(s: seq<T>, shifted: seq<T>, index: nat, value: T)
    requires index <= |s| && |shifted| == |s| + 1
    requires shifted[..index] == s[..index] && shifted[index + 1..] == s[index..]
    ensures shifted[index := value] == s[..index] + [value] + s[index..]
  {
  }

  class Vector<T(0)> {
    var elements: array<T>
    var capacity: nat
    var size: nat
    /** The logical contents, elements[0..size). */
    ghost var Contents: seq<T>

    ghost predicate Valid()
      reads this, elements
    {
      elements.Length == capacity && size <= capacity && Contents == elements[..size]
    }

    /** The state a caller can observe. */
    ghost function State(): VecState<T>
      reads this
    {
      VecState(Contents, capacity)
    }

    /** Vector(): no elements and no buffer. */
    constructor ()
      ensures Valid() && fresh(elements)
      ensures State() == Empty()
    {
      elements := new T[0];
      capacity, size := 0, 0;
      Contents := [];
    }

    /** Copy constructor: a deep copy into a buffer of its own. */
    constructor Copy(other: Vector<T>)
      requires other.Valid()
      ensures Valid() && fresh(elements)
      ensures State() == other.State() && size == other.size
    {
      var buffer := new T[other.capacity];
      CopyPrefix(other.elements, buffer, other.size);
      elements := buffer;
      capacity, size := other.capacity, other.size;
      Contents := other.Contents;
    }

    /** Copy assignment; assigning a vector to itself changes nothing. */
    method Assign(other: Vector<T>)
      requires Valid() && other.Valid()
      modifies this
      ensures Valid() && other.Valid()
      ensures State() == old(other.State()) && size == old(other.size)
      ensures other == this ==> unchanged(this)
      ensures other != this ==> fresh(elements)
    {
      if other != this {
        var buffer := new T[other.capacity];
        CopyPrefix(other.elements, buffer, other.size);
        capacity, size := other.capacity, other.size;
        elements := buffer;
        Contents := other.Contents;
      }
    }

    function GetSize(): (n: nat)
      reads this, elements
      requires Valid()
      ensures n == |Contents|
    {
      size
    }

    function GetCapacity(): (n: nat)
      reads this, elements
      requires Valid()
      ensures n == elements.Length && n >= |Contents|
    {
      capacity
    }

    /** Reading through operator[] (either overload). */
    method At(index: nat) returns (r: Result<T>)
      requires Valid()
      ensures index < |Contents| ==> r == Ok(Contents[index])
      ensures index >= |Contents| ==> r == Err(OutOfRange)
    {
      if index >= size {
        return Err(OutOfRange);
      }
      return Ok(elements[index]);
    }

    /** Writing through the reference the non-const operator[] returns. */
    method SetAt(index: nat, value: T) returns (r: Result<()>)
      requires Valid()
      modifies this, elements
      ensures Valid() && elements == old(elements)
      ensures Update(old(State()), index, value) == if r.Ok? then Ok(State()) else Err(r.error)
      ensures r.Err? ==> unchanged(this) && unchanged(elements)
    {
      if index >= size {
        return Err(OutOfRange);
      }
      elements[index] := value;
      Contents := Contents[index := value];
      return Ok(());
    }

    method Reserve(newCapacity: nat)
      requires Valid()
      modifies this
      ensures Valid()
      ensures State() == VectorSpec.Reserve(old(State()), newCapacity) && size == old(size)
      ensures newCapacity > old(capacity) ==> fresh(elements)
      ensures newCapacity <= old(capacity) ==> unchanged(this)
    {
      if newCapacity > capacity {
        var newElements := new T[newCapacity];
        CopyPrefix(elements, newElements, size);
        elements := newElements;
        capacity := newCapacity;
      }
    }

    method PushBack(value: T)
      requires Valid()
      modifies this, elements
      ensures Valid()
      ensures State() == VectorSpec.PushBack(old(State()), value)
      ensures elements == old(elements) || fresh(elements)
    {
      if size == capacity {
        Reserve(GrownCapacity(capacity));
      }
      elements[size] := value;
      size := size + 1;
      Contents := Contents + [value];
    }

    method Insert(index: nat, value: T) returns (r: Result<()>)
      requires Valid()
      modifies this, elements
      ensures Valid()
      ensures VectorSpec.Insert(old(State()), index, value) == if r.Ok? then Ok(State()) else Err(r.error)
      ensures r.Err? ==> unchanged(this) && unchanged(elements)
      ensures elements == old(elements) || fresh(elements)
    {
      if index > size {
        return Err(OutOfRange);
      }
      if size == capacity {
        Reserve(GrownCapacity(capacity));
      }
      ghost var grown := State();
      assert grown == GrowIfFull(old(State()));
      ShiftRight(elements, index, size);
      ghost var shifted := elements[..size + 1];
      elements[index] := value;
      assert elements[..size + 1] == shifted[index := value];
      SpliceByShift(grown.contents, shifted, index, value);
      size := size + 1;
      Contents := grown.contents[..index] + [value] + grown.contents[index..];
      assert VectorSpec.Insert(old(State()), index, value) == Ok(State());
      return Ok(());
    }

    /** insert(index, v[j]) as the source runs it when the buffer has room:
        `value` refers to elements[j] and is read after the shift. */
    method InsertOwnElementAsWritten(index: nat, j: nat) returns (r: Result<()>)
      requires Valid() && j < size < capacity
      modifies this, elements
      ensures Valid() && elements == old(elements)
      ensures VectorSpec.InsertOwnElementAsWritten(old(State()), index, j)
              == if r.Ok? then Ok(State()) else Err(r.error)
      ensures r.Err? ==> unchanged(this) && unchanged(elements)
    {
      if index > size {
        return Err(OutOfRange);
      }
      ghost var s := Contents;
      ShiftRight(elements, index, size);
      ghost var shifted := elements[..size + 1];
      var value := elements[j];
      assert value == ReadAfterShift(s, index, j);
      elements[index] := value;
      assert elements[..size + 1] == shifted[index := value];
      SpliceByShift(s, shifted, index, value);
      size := size + 1;
      Contents := s[..index] + [value] + s[index..];
      return Ok(());
    }

    /** insert(index, v[j]) with the argument copied before the buffer changes. */
    method InsertOwnElement(index: nat, j: nat) returns (r: Result<()>)
      requires Valid() && j < size
      modifies this, elements
      ensures Valid()
      ensures VectorSpec.Insert(old(State()), index, old(Contents[j]))
              == if r.Ok? then Ok(State()) else Err(r.error)
      ensures r.Err? ==> unchanged(this) && unchanged(elements)
    {
      var value := elements[j];
      r := Insert(index, value);
    }

    /** push_back(v[j]) with the argument copied before reserve frees the old buffer. */
    method PushBackOwnElement(j: nat)
      requires Valid() && j < size
      modifies this, elements
      ensures Valid()
      ensures State() == VectorSpec.PushBack(old(State()), old(Contents[j]))
    {
      var value := elements[j];
      PushBack(value);
    }

    method PopBack()
      requires Valid()
      modifies this
      ensures Valid() && elements == old(elements)
      ensures State() == VectorSpec.PopBack(old(State()))
    {
      if size > 0 {
        size := size - 1;
        Contents := Contents[..size];
      }
    }

    method Clear()
      requires Valid()
      modifies this
      ensures Valid() && elements == old(elements)
      ensures State() == VectorSpec.Clear(old(State()))
    {
      size := 0;
      Contents := [];
    }
  }
}
