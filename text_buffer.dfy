/**
 * The dynamic string `ds_str` (lib/datastruct/ds_str.c): a heap block
 * `data` of `capacity` bytes holding a NUL-terminated string of `length`
 * bytes. Every operation changes the block in place; growing or shrinking it
 * (`realloc`) is modelled as moving to a fresh array.
 */
module TextBuffers {
  import opened CStrings
  import opened Wrappers

  class TextBuffer {
    /** The allocated block. */
    var data: array<char>
    /** Bytes in use, not counting the terminating NUL. */
    var length: nat
    /** Size of the allocated block. */
    var capacity: nat

    /** The C string the buffer holds. */
    ghost var Content: CString
    ghost var Repr: set<object>

    /** The invariants `ds_str_destroy` asserts, plus the terminator and the block size. */
    ghost predicate Valid()
      reads this, Repr
    {
      Repr == {this, data} &&
      capacity == data.Length && capacity < WORD &&
      length < capacity &&
      Content == data[..length] && data[length] == '\0'
    }

    /** The state just after `realloc`: the length may not fit the new block yet. */
    ghost predicate Reallocated()
      reads this, Repr
    {
      Repr == {this, data} &&
      capacity == data.Length && 0 < capacity < WORD &&
      |Content| == length &&
      (length < capacity ==> Content == data[..length] && data[length] == '\0') &&
      (capacity <= length ==> data[..capacity] == Content[..capacity])
    }

    /** `ds_str_create`: a copy of `s` in a block of exactly `|s| + 1` bytes. */
    constructor Create(s: CString)
      requires |s| + 1 < WORD
      ensures Valid() && fresh(Repr)
      ensures Content == s && capacity == |s| + 1
    {
      var a := new char[|s| + 1](i requires 0 <= i <= |s| => if i < |s| then s[i] else '\0');
      assert a[..|s|] == s;
      data := a;
      length := |s|;
      capacity := |s| + 1;
      Content := s;
      Repr := {this, a};
    }

    /**
     * `ds_str_create_direct`: adopts the block `init` of `size` bytes; its
     * length is taken to be `size - 1` without a call to `strlen`.
     */
    constructor CreateDirect(init: array<char>, size: nat)
      requires 0 < size == init.Length < WORD
      requires init[size - 1] == '\0' && '\0' !in init[..size - 1]
      ensures Valid() && Repr == {this, init} && data == init
      ensures Content == init[..size - 1] && capacity == size
    {
      data := init;
      length := size - 1;
      capacity := size;
      Content := init[..size - 1];
      Repr := {this, init};
    }

    /** `ds_str_dup`: a new buffer holding the same string, sized to fit. */
    method Dup() returns (r: TextBuffer)
      requires Valid()
      ensures fresh(r.Repr) && r.Valid()
      ensures r.Content == Content && r.capacity == |Content| + 1
    {
      r := new TextBuffer.Create(data[..length]);
    }

    /** `ds_str_cstr`: the C string held. */
    method Cstr() returns (s: CString)
      requires Valid()
      ensures s == Content
    {
      s := data[..length];
    }

    /** `ds_str_length`. */
    method Length() returns (n: nat)
      requires Valid()
      ensures n == |Content|
    {
      n := length;
    }

    /** `ds_str_is_empty`. */
    method IsEmpty() returns (b: bool)
      requires Valid()
      ensures b <==> Content == []
    {
      b := length == 0;
    }

    /**
     * `ds_str_char_at_index`: the byte stored at `index`; the position just
     * past the string holds its terminator.
     */
    method CharAtIndex(index: nat) returns (c: char)
      requires Valid() && index <= |Content|
      ensures index < |Content| ==> c == Content[index]
      ensures index == |Content| ==> c == '\0'
    {
      c := data[index];
    }

    /** `ds_str_clear`: empties the string and keeps the block. */
    method Clear()
      requires Valid()
      modifies data, this
      ensures Valid() && Repr == old(Repr)
      ensures Content == [] && capacity == old(capacity)
    {
      data[0] := '\0';
      length := 0;
      Content := [];
    }

    // ------------------------------------------------------------ capacity

    /** `truncate_if_needed`: cuts the string to fit a block that has shrunk. */
    method TruncateIfNeeded()
      requires Reallocated()
      modifies this, data
      ensures Valid() && Repr == old(Repr) && capacity == old(capacity)
      ensures old(length) < capacity ==> Content == old(Content)
      ensures capacity <= old(length) ==> Content == old(Content)[..capacity - 1]
    {
      if length >= capacity {
        length := capacity - 1;
        data[length] := '\0';
        Content := Content[..length];
        assert data[..length] == old(data[..capacity])[..length];
      }
    }

    /**
     * `change_capacity`: moves the string to a block of `newCapacity` bytes,
     * keeping what fits.
     */
    method ChangeCapacity(newCapacity: nat)
      requires Valid() && 0 < newCapacity < WORD
      modifies this
      ensures Valid() && fresh(data) && capacity == newCapacity
      ensures |old(Content)| < newCapacity ==> Content == old(Content)
      ensures newCapacity <= |old(Content)| ==> Content == old(Content)[..newCapacity - 1]
    {
      var old_data := data;
      var a := new char[newCapacity](i requires 0 <= i < newCapacity reads old_data =>
                                       if i < old_data.Length then old_data[i] else '\0');
      assert length < newCapacity ==> a[..length] == old_data[..length];
      assert newCapacity <= length ==> a[..newCapacity] == old_data[..length][..newCapacity];
      data := a;
      capacity := newCapacity;
      Repr := {this, a};
      TruncateIfNeeded();
    }

    /**
     * `change_capacity_if_needed` as written: grows the block when it is too
     * small and reports `true`; when the block is already large enough it
     * changes nothing and reports `false`.
     */
    method ChangeCapacityIfNeeded(required: nat) returns (changed: bool)
      requires Valid() && 0 < required < WORD
      modifies this
      ensures Valid() && fresh(Repr - old(Repr))
      ensures changed <==> old(capacity) < required
      ensures Content == old(Content)
      ensures capacity == if changed then required else old(capacity)
      ensures !changed ==> data == old(data)
    {
      if required > capacity {
        ChangeCapacity(required);
        changed := true;
      } else {
        changed := false;
      }
    }

    /** `ds_str_size_to_fit`: shrinks the block to exactly the string and its terminator. */
    method SizeToFit()
      requires Valid()
      modifies this
      ensures Valid() && fresh(Repr - old(Repr))
      ensures Content == old(Content) && capacity == |Content| + 1
    {
      if capacity > length + 1 {
        ChangeCapacity(length + 1);
      }
    }

    /**
     * `ds_str_trunc`: gives the block `n + 1` bytes when that is smaller, so
     * the string keeps at most its first `n` bytes.
     */
    method Trunc(n: nat)
      requires Valid() && n + 1 < WORD
      modifies this
      ensures Valid() && fresh(Repr - old(Repr))
      ensures Content == if |old(Content)| <= n then old(Content) else old(Content)[..n]
      ensures capacity == if n + 1 < old(capacity) then n + 1 else old(capacity)
    {
      if n + 1 < capacity {
        ChangeCapacity(n + 1);
      }
    }

    // ------------------------------------------------------------ assignment

    /**
     * `ds_str_assign_cstr` through `ds_str_assign_cstr_length`, as written:
     * the copy happens only when the block has to grow, because
     * `change_capacity_if_needed` reports `false` when it already fits.
     */
    method AssignCstr(src: CString) returns (ok: bool)
      requires Valid() && |src| + 1 < WORD
      modifies this, data
      ensures Valid() && fresh(Repr - old(Repr))
      ensures ok <==> old(capacity) < |src| + 1
      ensures ok ==> Content == src && capacity == |src| + 1
      ensures !ok ==> Content == old(Content) && capacity == old(capacity)
    {
      ok := ChangeCapacityIfNeeded(|src| + 1);
      if ok {
        forall k | 0 <= k < |src| {
          data[k] := src[k];
        }
        data[|src|] := '\0';
        length := |src|;
        Content := src;
        assert data[..length] == src;
      }
    }

    /** `ds_str_assign`: assigns the string held by another buffer. */
    method Assign(src: TextBuffer) returns (ok: bool)
      requires Valid() && src.Valid()
      modifies this, data
      ensures Valid() && fresh(Repr - old(Repr))
      ensures ok <==> old(capacity) < |old(src.Content)| + 1
      ensures ok ==> Content == old(src.Content) && capacity == |Content| + 1
      ensures !ok ==> Content == old(Content) && capacity == old(capacity)
    {
      var s := src.data[..src.length];
      ok := AssignCstr(s);
    }

    /**
     * `assign_cstr_direct` as `ds_str_getline` uses it: adopts the block
     * `src` of `size` bytes holding a string of `n` bytes.
     */
    method AssignCstrDirect(src: array<char>, size: nat, n: nat)
      requires Valid() && 0 < size == src.Length < WORD && n < size
      requires src[n] == '\0' && '\0' !in src[..n]
      modifies this
      ensures Valid() && data == src && Repr == {this, src}
      ensures Content == src[..n] && capacity == size
    {
      data := src;
      capacity := size;
      length := n;
      Content := src[..n];
      Repr := {this, src};
    }

    // ------------------------------------------------------------ concatenation

    /**
     * `ds_str_concat_cstr` through `ds_str_concat_cstr_size`, as written: the
     * bytes are appended only when the block has to grow to take them; when
     * they would already fit, nothing happens and the result is `NULL`.
     */
    method ConcatCstr(src: CString) returns (ok: bool)
      requires Valid() && |Content| + |src| + 1 < WORD
      modifies this, data
      ensures Valid() && fresh(Repr - old(Repr))
      ensures ok <==> old(capacity) < |old(Content)| + |src| + 1
      ensures ok ==> Content == old(Content) + src && capacity == |Content| + 1
      ensures !ok ==> Content == old(Content) && capacity == old(capacity)
    {
      ok := ChangeCapacityIfNeeded(length + |src| + 1);
      if ok {
        AppendInPlace(src);
      }
    }

    /**
     * `ds_str_concat`: appends the string held by another buffer. The two
     * buffers must differ: with `src == this` the C code reads `src->data`
     * after `realloc` may have released it.
     */
    method Concat(src: TextBuffer) returns (ok: bool)
      requires Valid() && src.Valid() && src != this && |Content| + |src.Content| + 1 < WORD
      modifies this, data
      ensures Valid() && fresh(Repr - old(Repr))
      ensures ok <==> old(capacity) < |old(Content)| + |old(src.Content)| + 1
      ensures ok ==> Content == old(Content) + old(src.Content) && capacity == |Content| + 1
      ensures !ok ==> Content == old(Content) && capacity == old(capacity)
    {
      var s := src.data[..src.length];
      ok := ConcatCstr(s);
    }

    /** The `memcpy` of the concatenation: copies `src` and its NUL past the string. */
    method AppendInPlace(src: CString)
      requires Valid() && length + |src| < capacity
      modifies data, this
      ensures Valid() && Repr == old(Repr) && capacity == old(capacity)
      ensures Content == old(Content) + src
    {
      forall k | 0 <= k < |src| {
        data[length + k] := src[k];
      }
      data[length + |src|] := '\0';
      Content := Content + src;
      length := length + |src|;
      assert data[..length] == Content;
    }

    /**
     * Concatenation with `change_capacity_if_needed` behaving as its comment
     * documents (`true` when no change was needed): the bytes are always
     * appended, and the block grows only when they do not fit.
     */
    method ConcatCstrIntended(src: CString)
      requires Valid() && |Content| + |src| + 1 < WORD
      modifies this, data
      ensures Valid() && fresh(Repr - old(Repr))
      ensures Content == old(Content) + src
      ensures capacity == if old(capacity) < |Content| + 1 then |Content| + 1 else old(capacity)
    {
      var _ := ChangeCapacityIfNeeded(length + |src| + 1);
      AppendInPlace(src);
    }

    // ------------------------------------------------------------ removal

    /** `ds_str_remove_right`: drops the last `n` bytes when `0 < n <= length`. */
    method RemoveRight(n: nat)
      requires Valid()
      modifies data, this
      ensures Valid() && Repr == old(Repr) && capacity == old(capacity)
      ensures 0 < n <= |old(Content)| ==> Content == old(Content)[..|old(Content)| - n]
      ensures !(0 < n <= |old(Content)|) ==> Content == old(Content)
    {
      if 0 < n <= length {
        var remaining := length - n;
        data[remaining] := '\0';
        length := remaining;
        Content := Content[..remaining];
      }
    }

    /** `ds_str_remove_left`: drops the first `n` bytes when `0 < n <= length`. */
    method RemoveLeft(n: nat)
      requires Valid()
      modifies data, this
      ensures Valid() && Repr == old(Repr) && capacity == old(capacity)
      ensures 0 < n <= |old(Content)| ==> Content == old(Content)[n..]
      ensures !(0 < n <= |old(Content)|) ==> Content == old(Content)
    {
      if 0 < n <= length {
        var remaining := length - n;
        forall k | 0 <= k <= remaining {
          data[k] := data[k + n];
        }
        length := remaining;
        Content := Content[n..];
        assert data[..length] == Content;
      }
    }

    // ------------------------------------------------------------ queries

    /** `ds_str_hash`: the djb2 hash of the string, one byte per iteration. */
    method Hash() returns (h: nat)
      requires Valid()
      ensures h == Djb2(Content)
    {
      h := 5381;
      var i := 0;
      while data[i] != '\0'
        invariant 0 <= i <= length
        invariant h == Djb2(Content[..i])
        decreases length - i
      {
        Djb2Extend(Content, i);
        h := Djb2Step(h, data[i]);
        i := i + 1;
      }
      assert Content[..i] == Content;
    }

    /** `ds_str_compare`: `strcmp` on the two strings held. */
    method Compare(other: TextBuffer) returns (r: int)
      requires Valid() && other.Valid()
      ensures r == CStrings.Compare(Content, other.Content)
      ensures r == 0 <==> Content == other.Content
    {
      r := CStrings.Compare(data[..length], other.data[..other.length]);
    }

    /**
     * `ds_str_strchr`: the index of the first `c` in the string, or -1. The
     * terminator stops the scan, so searching for NUL finds nothing.
     */
    method Strchr(c: char) returns (i: int)
      requires Valid()
      ensures i == IndexOf(Content, c)
      ensures i == -1 <==> c !in Content
    {
      var j := 0;
      while data[j] != '\0' && data[j] != c
        invariant 0 <= j <= length
        invariant c !in Content[..j]
        decreases length - j
      {
        assert Content[..j + 1] == Content[..j] + [Content[j]];
        j := j + 1;
      }
      if data[j] != '\0' {
        IndexOfUnique(Content, c, j);
        i := j;
      } else {
        assert Content[..j] == Content;
        i := -1;
      }
    }

    // ------------------------------------------------------------ substrings

    /**
     * `ds_str_substr_left`: a new buffer with the first `n` bytes, or the
     * whole string when `n` exceeds its length (the `size_t` subtraction
     * wraps and the removal does nothing).
     */
    method SubstrLeft(n: nat) returns (r: TextBuffer)
      requires Valid() && n < WORD
      ensures fresh(r.Repr) && r.Valid()
      ensures r.Content == if n <= |Content| then Content[..n] else Content
      ensures r.capacity == |Content| + 1
    {
      r := Dup();
      r.RemoveRight(SizeSub(r.length, n));
    }

    /**
     * `ds_str_substr_right`: a new buffer with the last `n` bytes, or the
     * whole string when `n` exceeds its length.
     */
    method SubstrRight(n: nat) returns (r: TextBuffer)
      requires Valid() && n < WORD
      ensures fresh(r.Repr) && r.Valid()
      ensures r.Content == if n <= |Content| then Content[|Content| - n..] else Content
      ensures r.capacity == |Content| + 1
    {
      r := Dup();
      r.RemoveLeft(SizeSub(r.length, n));
    }

    /**
     * `ds_str_split`: the parts before and after the first `c`, as two new
     * buffers, or two `NULL`s when `c` does not occur.
     */
    method Split(c: char) returns (left: TextBuffer?, right: TextBuffer?)
      requires Valid()
      ensures left == null <==> c !in Content
      ensures right == null <==> c !in Content
      ensures left != null && right != null ==>
                fresh(left.Repr) && fresh(right.Repr) && left.Repr !! right.Repr &&
                left.Valid() && right.Valid() &&
                Content == left.Content + [c] + right.Content && c !in left.Content &&
                left.capacity == |Content| + 1 && right.capacity == |Content| + 1
    {
      var idx := Strchr(c);
      if idx == -1 {
        left, right := null, null;
      } else {
        left := SubstrLeft(idx);
        right := SubstrRight(length - idx - 1);
        assert Content == Content[..idx] + [c] + Content[idx + 1..];
      }
    }

    // ------------------------------------------------------------ trimming

    /** `ds_str_trim_leading`: removes leading whitespace in place. */
    method TrimLeading()
      requires Valid()
      modifies data, this
      ensures Valid() && Repr == old(Repr) && capacity == old(capacity)
      ensures Content == CStrings.TrimLeading(old(Content))
    {
      var i := 0;
      while data[i] != '\0' && IsSpace(data[i])
        invariant 0 <= i <= length
        invariant forall k :: 0 <= k < i ==> IsSpace(Content[k])
        decreases length - i
      {
        i := i + 1;
      }
      LeadingSpacesUnique(Content, i);
      RemoveLeft(i);
    }

    /** `ds_str_trim_trailing`: removes trailing whitespace in place, scanning backwards. */
    method TrimTrailing()
      requires Valid()
      modifies data, this
      ensures Valid() && Repr == old(Repr) && capacity == old(capacity)
      ensures Content == CStrings.TrimTrailing(old(Content))
    {
      var i: int := length - 1;
      var num := 0;
      while i >= 0 && IsSpace(data[i])
        invariant num <= length && i == length - 1 - num
        invariant forall k :: length - num <= k < length ==> IsSpace(Content[k])
        decreases i
      {
        i := i - 1;
        num := num + 1;
      }
      TrailingSpacesUnique(Content, num);
      RemoveRight(num);
    }

    /** `ds_str_trim`: trailing whitespace first, then leading whitespace. */
    method Trim()
      requires Valid()
      modifies data, this
      ensures Valid() && Repr == old(Repr) && capacity == old(capacity)
      ensures Content == CStrings.Trim(old(Content))
    {
      TrimTrailing();
      TrimLeading();
    }

    // ------------------------------------------------------------ input

    /**
     * `ds_str_getline`: `line` is what `fgets` delivered into a block of
     * `size` bytes (`None` at end of file). The block then replaces the
     * buffer's own, with one trailing newline stripped. At end of file the
     * buffer is untouched and the result is `NULL`.
     */
    method Getline(size: nat, line: Option<CString>) returns (ok: bool)
      requires Valid() && 0 < size < WORD
      requires line.Some? ==> |line.value| < size
      modifies this
      ensures Valid() && fresh(Repr - old(Repr))
      ensures ok <==> line.Some?
      ensures ok ==> Content == StripNewline(line.value) && capacity == size
      ensures !ok ==> Content == old(Content) && capacity == old(capacity)
    {
      if line.None? {
        return false;
      }
      var s := line.value;
      var n := |s|;
      if n > 0 && s[n - 1] == '\n' {
        n := n - 1;
      }
      var buffer := new char[size](i requires 0 <= i < size => if i < n then s[i] else '\0');
      assert buffer[..n] == s[..n];
      assert s[..n] == StripNewline(s);
      AssignCstrDirect(buffer, size, n);
      ok := true;
    }
  }

  /**
   * The defect of `change_capacity_if_needed` seen from outside: a buffer
   * with room to spare refuses a concatenation. Trimming "  x" leaves "x" in
   * a 4-byte block, so appending "y" needs 3 bytes, fits, and is refused.
   */
  method SpareRoomConcatFails() returns (b: TextBuffer, ok: bool)
    ensures b.Valid() && !ok
    ensures b.Content == "x" && b.capacity == 4
  {
    b := new TextBuffer.Create("  x");
    b.Trim();
    assert CStrings.TrailingSpaces("  x") == 0;
    assert CStrings.Trim("  x") == "x" by {
      LeadingSpacesUnique("  x", 2);
    }
    ok := b.ConcatCstr("y");
  }

  /** The intended concatenation appends "y" in the same situation, without reallocating. */
  method SpareRoomConcatIntended() returns (b: TextBuffer)
    ensures b.Valid()
    ensures b.Content == "xy" && b.capacity == 4
  {
    b := new TextBuffer.Create("  x");
    b.Trim();
    assert CStrings.TrailingSpaces("  x") == 0;
    assert CStrings.Trim("  x") == "x" by {
      LeadingSpacesUnique("  x", 2);
    }
    b.ConcatCstrIntended("y");
  }
}
