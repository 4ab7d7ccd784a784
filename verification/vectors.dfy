/** The growable vector of entities.c (and its earlier revision in
    vector.c, whose init and add behave the same under the field name
    `allocated_size`): a length, an allocated capacity, and the stored
    values. Only the stored prefix is modelled; the slots past `length`
    hold nothing a caller may read. */
module Vectors {
  /** VECTOR_DEFAULT_SIZE: the initial capacity and the growth step. */
  const DefaultSize: nat := 32

  datatype Vector<T> = Vector(capacity: int, elems: seq<T>)

  /** The invariant init, add, reset and refit keep: the elements fit the
      allocation, and an empty vector has the default capacity (only an
      add, which leaves an element, or a refit, which needs one, moves the
      capacity away from 32). */
  predicate Valid<T>(v: Vector<T>)
  {
    |v.elems| <= v.capacity && (|v.elems| == 0 ==> v.capacity == DefaultSize)
  }

  /** vector_init(): no elements, capacity 32. */
  function Init<T>(): (v: Vector<T>)
    ensures Valid(v) && |v.elems| == 0 && v.capacity == DefaultSize
  {
    Vector(DefaultSize, [])
  }

  /** vector_add(): the value goes last, earlier values stay; the capacity
      grows by exactly 32, and only when the vector is full. */
  function Add<T>(v: Vector<T>, x: T): (v': Vector<T>)
    requires Valid(v)
    ensures Valid(v')
    ensures |v'.elems| == |v.elems| + 1 && v'.elems[|v.elems|] == x
    ensures v'.elems[..|v.elems|] == v.elems
    ensures v'.capacity == if |v.elems| == v.capacity then v.capacity + DefaultSize else v.capacity
  {
    var capacity := if |v.elems| == v.capacity then v.capacity + DefaultSize else v.capacity;
    Vector(capacity, v.elems + [x])
  }

  /** What vector_reset and vector_refit leave behind. On 0 the vector is
      `v`. On -1 the struct keeps the length and allocated_length of `v`,
      but its buffer has already been realloc'ed to `slots` entries. */
  datatype Outcome<T> = Success(v: Vector<T>) | Failure(v: Vector<T>, slots: nat)

  /** vector_reset() as written: when the capacity is not 32 the buffer is
      realloc'ed to 32 slots, and the call fails if the FIRST STORED VALUE
      is NULL (the test reads `*values`, not the pointer realloc returned);
      otherwise the vector is emptied with capacity 32. */
  function Reset<T>(v: Vector<T>, isNull: T -> bool): (o: Outcome<T>)
    requires Valid(v)
    ensures o.Success? <==> v.capacity == DefaultSize || !isNull(v.elems[0])
    ensures o.Success? ==> Valid(o.v) && |o.v.elems| == 0 && o.v.capacity == DefaultSize
    ensures o.Failure? ==> o.v == v && o.slots == DefaultSize
  {
    if v.capacity != DefaultSize && isNull(v.elems[0]) then Failure(v, DefaultSize)
    else Success(Vector(DefaultSize, []))
  }

  /** The reset the message at entities.c:68 describes: with the pointer
      test, a successful realloc always leaves a fresh vector. */
  function ResetCorrected<T>(v: Vector<T>): (v': Vector<T>)
    ensures Valid(v') && |v'.elems| == 0 && v'.capacity == DefaultSize
    ensures v' == Init()
  {
    Vector(DefaultSize, [])
  }

  /** When no stored value is NULL (every caller in the program stores
      freshly allocated tuples or instances) the reset as written is the
      corrected one. */
  lemma ResetWithoutNulls<T>(v: Vector<T>, isNull: T -> bool)
    requires Valid(v)
    requires forall k :: 0 <= k < |v.elems| ==> !isNull(v.elems[k])
    ensures Reset(v, isNull) == Success(ResetCorrected(v))
  {
  }

  /** As written, resetting 33 values whose first is NULL at capacity 64
      returns -1 and keeps allocated_length 64 over a buffer of 32 slots,
      so the next add writes past the buffer. */
  lemma ResetNullFirst(v: Vector<int>)
    requires v.capacity == 2 * DefaultSize && |v.elems| == DefaultSize + 1 && v.elems[0] == 0
    ensures var o := Reset(v, x => x == 0);
      o.Failure? && o.v.capacity > o.slots && |o.v.elems| > o.slots
  {
  }

  /** vector_refit() as written: nothing happens when the capacity already
      equals the length; otherwise the buffer is realloc'ed to `length`
      slots, and the call fails, keeping the old allocated_length, if the
      first stored value is NULL. An empty vector is excluded: the source
      then dereferences the result of a zero-size realloc. */
  function Refit<T>(v: Vector<T>, isNull: T -> bool): (o: Outcome<T>)
    requires Valid(v) && |v.elems| > 0
    ensures o.Success? <==> v.capacity == |v.elems| || !isNull(v.elems[0])
    ensures o.Success? ==> Valid(o.v) && o.v.elems == v.elems && o.v.capacity == |v.elems|
    ensures o.Failure? ==> o.v == v && o.slots == |v.elems|
    ensures v.capacity == |v.elems| ==> o == Success(v)
  {
    if |v.elems| == v.capacity then Success(v)
    else if isNull(v.elems[0]) then Failure(v, |v.elems|)
    else Success(Vector(|v.elems|, v.elems))
  }

  /** The refit with the pointer test: the capacity becomes the length. */
  function RefitCorrected<T>(v: Vector<T>): (v': Vector<T>)
    requires Valid(v) && |v.elems| > 0
    ensures Valid(v') && v'.elems == v.elems && v'.capacity == |v.elems|
    ensures v.capacity == |v.elems| ==> v' == v
  {
    if |v.elems| == v.capacity then v else Vector(|v.elems|, v.elems)
  }

  /** Refitting a refitted vector changes nothing. */
  lemma RefitIdempotent<T>(v: Vector<T>, isNull: T -> bool)
    requires Valid(v) && |v.elems| > 0 && Refit(v, isNull).Success?
    ensures Refit(Refit(v, isNull).v, isNull) == Refit(v, isNull)
  {
  }

  /** As written, refitting 5 values whose first is NULL at capacity 32
      returns -1 and keeps allocated_length 32 over a buffer of 5 slots. */
  lemma RefitNullFirst(v: Vector<int>)
    requires v.capacity == DefaultSize && |v.elems| == 5 && v.elems[0] == 0
    ensures var o := Refit(v, x => x == 0);
      o.Failure? && o.v.capacity == DefaultSize && o.slots == 5
  {
  }

  /** Adding the values of xs one after another. */
  function AddAll<T>(v: Vector<T>, xs: seq<T>): (v': Vector<T>)
    requires Valid(v)
    ensures Valid(v')
    decreases |xs|
  {
    if |xs| == 0 then v else AddAll(Add(v, xs[0]), xs[1..])
  }

  /** The smallest multiple of 32 that holds n elements, and at least 32. */
  function CapacityFor(n: nat): (c: nat)
    ensures n <= c && c % DefaultSize == 0
    ensures n > 0 ==> c < n + DefaultSize
  {
    if n <= DefaultSize then DefaultSize else DefaultSize * ((n + DefaultSize - 1) / DefaultSize)
  }

  /** Adding values one by one appends them in order. */
  lemma {:induction false} AddAllContents<T>(v: Vector<T>, xs: seq<T>)
    requires Valid(v)
    ensures AddAll(v, xs).elems == v.elems + xs
    decreases |xs|
  {
    if |xs| > 0 {
      AddAllContents(Add(v, xs[0]), xs[1..]);
      assert v.elems + [xs[0]] + xs[1..] == v.elems + xs;
    }
  }

  /** From the least sufficient capacity, adds keep the capacity at the
      least multiple of 32 (and at least 32) able to hold the elements. */
  lemma {:induction false} AddAllCapacity<T>(v: Vector<T>, xs: seq<T>)
    requires Valid(v) && v.capacity == CapacityFor(|v.elems|)
    ensures AddAll(v, xs).capacity == CapacityFor(|v.elems| + |xs|)
    decreases |xs|
  {
    if |xs| > 0 {
      var n := |v.elems|;
      var w := Add(v, xs[0]);
      assert w.capacity == CapacityFor(n + 1) by {
        CapacityStep(n, v.capacity);
      }
      AddAllContents(v, [xs[0]]);
      AddAllCapacity(w, xs[1..]);
    }
  }

  /** One add from the least sufficient capacity gives the least
      sufficient capacity for one more element. */
  lemma CapacityStep(n: nat, capacity: int)
    requires capacity == CapacityFor(n) && n <= capacity
    ensures (if n == capacity then capacity + DefaultSize else capacity) == CapacityFor(n + 1)
  {
    if n > DefaultSize {
      var q := (n + DefaultSize - 1) / DefaultSize;
      var q' := (n + DefaultSize) / DefaultSize;
      if n == capacity {
        assert n == DefaultSize * q;
        assert n + DefaultSize == DefaultSize * (q + 1);
        assert q' == q + 1;
      } else {
        assert n < DefaultSize * q;
        assert (n + DefaultSize - 1) % DefaultSize != DefaultSize - 1;
        assert q' == q;
      }
    }
  }

  /** From vector_init, n adds give exactly those values, in order, and a
      capacity of 32 * max(1, ceil(n / 32)). */
  lemma AddsFromInit<T>(xs: seq<T>)
    ensures AddAll(Init<T>(), xs).elems == xs
    ensures AddAll(Init<T>(), xs).capacity == CapacityFor(|xs|)
  {
    AddAllContents(Init<T>(), xs);
    AddAllCapacity(Init<T>(), xs);
  }
}
