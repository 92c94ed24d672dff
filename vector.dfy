/**
 * The fixed-size vector `ds_vector` (lib/datastruct/ds_vector.c): an array
 * of `size` data pointers, all `NULL` at creation, with a destructor that
 * runs when a slot is overwritten or cleared and a cursor for iteration.
 * Slots are `Option<T>` (`None` for `NULL`); the data handed to the
 * destructor is recorded in a trace.
 */
module Vectors {
  import opened Wrappers

  class Vector<T> {
    const data: array<Option<T>>
    const size: nat
    /**
     * The iteration position. `ds_vector_create` never initialises it, so
     * it is `None` until the first `ds_vector_seek_start`.
     */
    var current: Option<nat>
    /** Stored by `ds_vector_create`; no operation reads it. */
    const freeOnDelete: bool
    /** Whether a destructor was supplied; `free` is used otherwise. */
    const hasDestructor: bool
    /** Every value handed to the destructor so far, oldest first, `NULL`s included. */
    ghost var Destroyed: seq<Option<T>>
    ghost var Repr: set<object>

    ghost predicate Valid()
      reads this, Repr
    {
      Repr == {this, data} && data.Length == size &&
      (current.Some? ==> current.value <= size)
    }

    /** `ds_vector_create`: `size` empty slots (from `calloc`). */
    constructor Create(size: nat, freeOnDelete: bool, hasDestructor: bool)
      ensures Valid() && fresh(Repr)
      ensures this.size == size && data[..] == seq(size, _ => None)
      ensures current == None && Destroyed == []
      ensures this.freeOnDelete == freeOnDelete && this.hasDestructor == hasDestructor
    {
      data := new Option<T>[size](_ => None);
      this.size := size;
      current := None;
      this.freeOnDelete := freeOnDelete;
      this.hasDestructor := hasDestructor;
      Destroyed := [];
      Repr := {this, data};
    }

    /**
     * `ds_vector_clear`: hands every slot, empty ones included, to the
     * destructor and empties it.
     */
    method Clear()
      requires Valid()
      modifies this, data
      ensures Valid() && Repr == old(Repr) && current == old(current)
      ensures data[..] == seq(size, _ => None)
      ensures Destroyed == old(Destroyed) + old(data[..])
    {
      for i := 0 to size
        invariant Valid() && Repr == old(Repr) && current == old(current)
        invariant data[..i] == seq(i, _ => None)
        invariant data[i..] == old(data[..])[i..]
        invariant Destroyed == old(Destroyed) + old(data[..])[..i]
      {
        assert old(data[..])[..i + 1] == old(data[..])[..i] + [data[i]];
        Destroyed := Destroyed + [data[i]];
        data[i] := None;
        assert data[i + 1..] == old(data[..])[i + 1..];
      }
    }

    /** `ds_vector_destroy`: clears the vector before releasing it. */
    method Destroy()
      requires Valid()
      modifies this, data
      ensures Destroyed == old(Destroyed) + old(data[..])
    {
      Clear();
    }

    /**
     * `ds_vector_set`: stores `x` at `index`, first handing a previous
     * non-`NULL` occupant to the destructor.
     */
    method Set(index: nat, x: Option<T>)
      requires Valid() && index < size
      modifies data, this
      ensures Valid() && Repr == old(Repr) && current == old(current)
      ensures data[..] == old(data[..])[index := x]
      ensures Destroyed == old(Destroyed) + (if old(data[index]).Some? then [old(data[index])] else [])
    {
      if data[index].Some? {
        Destroyed := Destroyed + [data[index]];
      }
      data[index] := x;
    }

    /** `ds_vector_element`: the value in slot `index`. */
    method Element(index: nat) returns (r: Option<T>)
      requires Valid() && index < size
      ensures r == data[index]
    {
      r := data[index];
    }

    /** `ds_vector_size`. */
    method Size() returns (n: nat)
      requires Valid()
      ensures n == data.Length
    {
      n := size;
    }

    /** `ds_vector_seek_start`: iteration restarts at slot 0. */
    method SeekStart()
      requires Valid()
      modifies this
      ensures Valid() && Repr == old(Repr)
      ensures current == Some(0) && Destroyed == old(Destroyed)
    {
      current := Some(0);
    }

    /**
     * `ds_vector_get_next_data`: the slot at the cursor, advancing it, or
     * `NULL` once every slot has been returned.
     */
    method GetNext() returns (r: Option<T>)
      requires Valid() && current.Some?
      modifies this
      ensures Valid() && Repr == old(Repr) && Destroyed == old(Destroyed)
      ensures old(current).value < size ==> r == data[old(current).value] && current == Some(old(current).value + 1)
      ensures size <= old(current).value ==> r == None && current == old(current)
    {
      var i := current.value;
      if i >= size {
        return None;
      }
      r := data[i];
      current := Some(i + 1);
    }
  }
}
