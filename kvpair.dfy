/**
 * The key-value pair `ds_kvpair` (lib/datastruct/ds_kvpair.c): two text
 * buffers that the pair owns, copied from the caller's on creation.
 */
module KvPairs {
  import opened CStrings
  import opened TextBuffers

  class KvPair {
    const key: TextBuffer
    const value: TextBuffer
    ghost var Repr: set<object>

    ghost predicate Valid()
      reads this, Repr
    {
      this in Repr && key in Repr && value in Repr &&
      key.Repr <= Repr && value.Repr <= Repr &&
      this !in key.Repr && this !in value.Repr && key.Repr !! value.Repr &&
      key.Valid() && value.Valid()
    }

    /**
     * `ds_kvpair_create`: a pair holding copies of `k` and `v`; the caller
     * keeps its own buffers.
     */
    constructor Create(k: TextBuffer, v: TextBuffer)
      requires k.Valid() && v.Valid()
      ensures Valid() && fresh(Repr)
      ensures key.Content == k.Content && value.Content == v.Content
    {
      var kc := k.Dup();
      var vc := v.Dup();
      key := kc;
      value := vc;
      Repr := {this} + kc.Repr + vc.Repr;
    }

    /** `ds_kvpair_get_key`: the pair's own key buffer, not a copy. */
    method GetKey() returns (r: TextBuffer)
      requires Valid()
      ensures r == key && r.Valid() && r.Repr <= Repr
    {
      r := key;
    }

    /** `ds_kvpair_get_value`: the pair's own value buffer, not a copy. */
    method GetValue() returns (r: TextBuffer)
      requires Valid()
      ensures r == value && r.Valid() && r.Repr <= Repr
    {
      r := value;
    }
  }

  /**
   * The copies made by `ds_kvpair_create` are independent of the caller's
   * buffers: clearing the originals afterwards leaves the pair as it was.
   */
  method PairOutlivesItsSources(k: TextBuffer, v: TextBuffer) returns (p: KvPair)
    requires k.Valid() && v.Valid() && k.Repr !! v.Repr
    modifies k.Repr, v.Repr
    ensures p.Valid() && k.Valid() && v.Valid()
    ensures k.Content == [] && v.Content == []
    ensures p.key.Content == old(k.Content) && p.value.Content == old(v.Content)
  {
    p := new KvPair.Create(k, v);
    k.Clear();
    v.Clear();
  }
}
