/**
 * The generic doubly-linked list `ds_list` (lib/datastruct/ds_list.c). The
 * chain of elements is modelled as the sequence of their data, and the
 * `current` pointer as the position of the element it points to (`None`
 * for `NULL`). Releasing data on removal is recorded in a trace, so that
 * "which destructor ran on what, in which order" can be stated.
 */
module Lists {
  import opened Wrappers

  /** How `list_element_destroy` released an element's data. */
  datatype Release<T> = Destructed(data: T) | Freed(data: T)

  /**
   * What `list_element_destroy` does to the data of a removed element: the
   * destructor runs when there is one, `free` otherwise, and nothing happens
   * unless the list was created with `free_on_delete`.
   */
  function ReleaseOf<T>(freeOnDelete: bool, hasDestructor: bool, x: T): (r: seq<Release<T>>)
    ensures |r| == if freeOnDelete then 1 else 0
    ensures freeOnDelete ==> r[0].data == x && (r[0].Destructed? <==> hasDestructor)
  {
    if !freeOnDelete then []
    else if hasDestructor then [Destructed(x)]
    else [Freed(x)]
  }

  /** The releases performed by removing `xs` tail first, as `ds_list_remove_all` does. */
  function ReleasesFromTail<T>(freeOnDelete: bool, hasDestructor: bool, xs: seq<T>): (r: seq<Release<T>>)
    ensures |r| == if freeOnDelete then |xs| else 0
    ensures freeOnDelete ==> forall k :: 0 <= k < |xs| ==> r[k].data == xs[|xs| - 1 - k]
    decreases |xs|
  {
    if xs == [] then []
    else ReleaseOf(freeOnDelete, hasDestructor, xs[|xs| - 1])
         + ReleasesFromTail(freeOnDelete, hasDestructor, xs[..|xs| - 1])
  }

  class List<T> {
    /** The data of the elements, head first. */
    var items: seq<T>
    /** The position of the element `current` points to; `None` for `NULL`. */
    var cursor: Option<nat>
    const freeOnDelete: bool
    /** Whether a data destructor was supplied (otherwise `free` is used). */
    const hasDestructor: bool
    /** Every release of element data so far, oldest first. */
    ghost var Released: seq<Release<T>>

    /** `current` is `NULL` or points at an element of the list. */
    ghost predicate Valid()
      reads this
    {
      cursor.Some? ==> cursor.value < |items|
    }

    /** `ds_list_create`: an empty list with no current element. */
    constructor Create(freeOnDelete: bool, hasDestructor: bool)
      ensures Valid()
      ensures items == [] && cursor == None && Released == []
      ensures this.freeOnDelete == freeOnDelete && this.hasDestructor == hasDestructor
    {
      items := [];
      cursor := None;
      this.freeOnDelete := freeOnDelete;
      this.hasDestructor := hasDestructor;
      Released := [];
    }

    /** `ds_list_length`. */
    method Length() returns (n: nat)
      ensures n == |items|
    {
      n := |items|;
    }

    /** `ds_list_is_empty`. */
    method IsEmpty() returns (b: bool)
      ensures b <==> items == []
    {
      b := |items| == 0;
    }

    /** `ds_list_append`: adds `x` after the tail; the current element does not move. */
    method Append(x: T)
      requires Valid()
      modifies this
      ensures Valid()
      ensures items == old(items) + [x] && cursor == old(cursor)
      ensures Released == old(Released)
    {
      items := items + [x];
    }

    /**
     * `ds_list_remove_tail`: unlinks the tail and releases its data; a
     * current pointer on the tail becomes `NULL`.
     */
    method RemoveTail()
      requires Valid() && items != []
      modifies this
      ensures Valid()
      ensures items == old(items)[..|old(items)| - 1]
      ensures cursor == if old(cursor) == Some(|old(items)| - 1) then None else old(cursor)
      ensures Released == old(Released) + ReleaseOf(freeOnDelete, hasDestructor, old(items)[|old(items)| - 1])
    {
      var last := |items| - 1;
      if cursor == Some(last) {
        cursor := None;
      }
      Released := Released + ReleaseOf(freeOnDelete, hasDestructor, items[last]);
      items := items[..last];
    }

    /** `ds_list_remove_all`: removes tails until the list is empty. */
    method RemoveAll()
      requires Valid()
      modifies this
      ensures Valid()
      ensures items == [] && cursor == None
      ensures Released == old(Released) + ReleasesFromTail(freeOnDelete, hasDestructor, old(items))
    {
      while items != []
        invariant Valid()
        invariant items == old(items)[..|items|]
        invariant Released + ReleasesFromTail(freeOnDelete, hasDestructor, items)
                  == old(Released) + ReleasesFromTail(freeOnDelete, hasDestructor, old(items))
        decreases |items|
      {
        ghost var before := items;
        assert before[..|before| - 1] == old(items)[..|before| - 1];
        RemoveTail();
        assert ReleasesFromTail(freeOnDelete, hasDestructor, before)
               == ReleaseOf(freeOnDelete, hasDestructor, before[|before| - 1])
                  + ReleasesFromTail(freeOnDelete, hasDestructor, items);
      }
    }

    /** `ds_list_destroy`: removes (and releases) every element. */
    method Destroy()
      requires Valid()
      modifies this
      ensures items == [] && cursor == None
      ensures Released == old(Released) + ReleasesFromTail(freeOnDelete, hasDestructor, old(items))
    {
      RemoveAll();
    }

    /** `ds_list_element`: walks `index` links from the head and returns that element's data. */
    method Element(index: nat) returns (r: Option<T>)
      requires index < |items|
      ensures r == Some(items[index])
    {
      var current: Option<int> := Some(0);
      var i := index;
      while current.Some? && i > 0
        invariant current == Some(index - i)
        decreases i
      {
        current := if current.value + 1 < |items| then Some(current.value + 1) else None;
        i := i - 1;
      }
      if current.Some? {
        r := Some(items[current.value]);
      } else {
        r := None;
      }
    }

    /** `ds_list_seek_start`: the current element becomes the head (`NULL` for an empty list). */
    method SeekStart()
      modifies this
      ensures Valid()
      ensures cursor == if items == [] then None else Some(0)
      ensures items == old(items) && Released == old(Released)
    {
      cursor := if items == [] then None else Some(0);
    }

    /** `ds_list_seek_end`: the current element becomes the tail. */
    method SeekEnd()
      modifies this
      ensures Valid()
      ensures cursor == if items == [] then None else Some(|items| - 1)
      ensures items == old(items) && Released == old(Released)
    {
      cursor := if items == [] then None else Some(|items| - 1);
    }

    /**
     * `ds_list_get_next_data`: the current element's data, moving the
     * current pointer to the next element; `NULL` once past the tail.
     */
    method GetNext() returns (r: Option<T>)
      requires Valid()
      modifies this
      ensures Valid()
      ensures items == old(items) && Released == old(Released)
      ensures old(cursor).None? ==> r == None && cursor == None
      ensures old(cursor).Some? ==>
                r == Some(items[old(cursor).value]) &&
                cursor == (if old(cursor).value + 1 < |items| then Some(old(cursor).value + 1) else None)
    {
      r := None;
      if cursor.Some? {
        var i := cursor.value;
        r := Some(items[i]);
        cursor := if i + 1 < |items| then Some(i + 1) else None;
      }
    }

    /**
     * `ds_list_get_prev_data`: the current element's data, moving the
     * current pointer to the previous element; `NULL` once past the head.
     */
    method GetPrev() returns (r: Option<T>)
      requires Valid()
      modifies this
      ensures Valid()
      ensures items == old(items) && Released == old(Released)
      ensures old(cursor).None? ==> r == None && cursor == None
      ensures old(cursor).Some? ==>
                r == Some(items[old(cursor).value]) &&
                cursor == (if old(cursor).value > 0 then Some(old(cursor).value - 1) else None)
    {
      r := None;
      if cursor.Some? {
        var i := cursor.value;
        r := Some(items[i]);
        cursor := if i > 0 then Some(i - 1) else None;
      }
    }
  }

  /**
   * Seeking to the start and calling `ds_list_get_next_data` until it
   * returns `NULL` yields every element, head to tail. This is the idiom the
   * record sets use to walk their records.
   */
  method WalkForward<T>(list: List<T>) returns (seen: seq<T>)
    requires list.Valid()
    modifies list
    ensures seen == list.items && list.items == old(list.items)
    ensures list.cursor == None
  {
    list.SeekStart();
    seen := [];
    var r := list.GetNext();
    while r.Some?
      invariant list.Valid() && list.items == old(list.items)
      invariant r.Some? ==> |seen| < |list.items| && r.value == list.items[|seen|]
      invariant r.Some? ==> list.cursor == (if |seen| + 1 < |list.items| then Some(|seen| + 1) else None)
      invariant r.None? ==> list.cursor == None && seen == list.items
      invariant seen == list.items[..|seen|]
      decreases |list.items| - |seen|
    {
      seen := seen + [r.value];
      r := list.GetNext();
    }
  }

  /**
   * Seeking to the end and calling `ds_list_get_prev_data` until it returns
   * `NULL` yields every element, tail to head.
   */
  method WalkBackward<T>(list: List<T>) returns (seen: seq<T>)
    requires list.Valid()
    modifies list
    ensures |seen| == |list.items| && list.items == old(list.items)
    ensures forall k :: 0 <= k < |seen| ==> seen[k] == list.items[|list.items| - 1 - k]
    ensures list.cursor == None
  {
    list.SeekEnd();
    seen := [];
    var r := list.GetPrev();
    while r.Some?
      invariant list.Valid() && list.items == old(list.items)
      invariant |seen| <= |list.items|
      invariant r.Some? ==> |seen| < |list.items| && r.value == list.items[|list.items| - 1 - |seen|]
      invariant r.Some? ==> list.cursor == (if |seen| + 1 < |list.items| then Some(|list.items| - 2 - |seen|) else None)
      invariant r.None? ==> list.cursor == None && |seen| == |list.items|
      invariant forall k :: 0 <= k < |seen| ==> seen[k] == list.items[|list.items| - 1 - k]
      decreases |list.items| - |seen|
    {
      seen := seen + [r.value];
      r := list.GetPrev();
    }
  }
}
