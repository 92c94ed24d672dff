/**
 * The database record `ds_record` (lib/datastruct/ds_record.c): a vector of
 * string fields that owns them, destroying each with `ds_str_destructor`.
 * A field is modelled by the C string it holds.
 */
module Records {
  import opened Wrappers
  import opened CStrings
  import opened Vectors

  class Record {
    const fields: Vector<CString>
    ghost var Repr: set<object>

    ghost predicate Valid()
      reads this, Repr
    {
      this in Repr && fields in Repr && fields.Repr <= Repr && this !in fields.Repr &&
      fields.Valid() && fields.freeOnDelete && fields.hasDestructor
    }

    /** The fields, `None` where none has been set. */
    ghost function Values(): seq<Option<CString>>
      reads this, fields, fields.data
    {
      fields.data[..]
    }

    /** `ds_record_create`: `size` unset fields, owned by the record. */
    constructor Create(size: nat)
      ensures Valid() && fresh(Repr)
      ensures Values() == seq(size, _ => None)
      ensures fields.Destroyed == []
    {
      var v := new Vector<CString>.Create(size, true, true);
      fields := v;
      Repr := {this} + v.Repr;
    }

    /** `ds_record_clear`: destroys every field and leaves all of them unset. */
    method Clear()
      requires Valid()
      modifies Repr
      ensures Valid() && Repr == old(Repr)
      ensures Values() == seq(|old(Values())|, _ => None)
      ensures fields.Destroyed == old(fields.Destroyed) + old(Values())
    {
      fields.Clear();
    }

    /** `ds_record_destroy`: destroys every field before the record itself goes. */
    method Destroy()
      requires Valid()
      modifies Repr
      ensures fields.Destroyed == old(fields.Destroyed) + old(Values())
    {
      fields.Destroy();
    }

    /** `ds_record_set`: stores `field` at `index`, destroying the field it replaces. */
    method Set(index: nat, field: CString)
      requires Valid() && index < |Values()|
      modifies Repr
      ensures Valid() && Repr == old(Repr)
      ensures Values() == old(Values())[index := Some(field)]
      ensures fields.Destroyed == old(fields.Destroyed) +
                (if old(Values())[index].Some? then [old(Values())[index]] else [])
    {
      fields.Set(index, Some(field));
    }

    /** `ds_record_field`: the field at `index`, `NULL` if unset. */
    method Field(index: nat) returns (r: Option<CString>)
      requires Valid() && index < |Values()|
      ensures r == Values()[index]
    {
      r := fields.Element(index);
    }

    /** `ds_record_size`: the number of fields. */
    method Size() returns (n: nat)
      requires Valid()
      ensures n == |Values()|
    {
      n := fields.Size();
    }

    /** `ds_record_seek_start`: iteration restarts at the first field. */
    method SeekStart()
      requires Valid()
      modifies Repr
      ensures Valid() && Repr == old(Repr)
      ensures Values() == old(Values()) && fields.current == Some(0)
    {
      fields.SeekStart();
    }

    /** `ds_record_get_next_data`: the next field, or `NULL` once all were returned. */
    method GetNext() returns (r: Option<CString>)
      requires Valid() && fields.current.Some?
      modifies Repr
      ensures Valid() && Repr == old(Repr)
      ensures Values() == old(Values())
      ensures old(fields.current).value < |Values()| ==>
                r == Values()[old(fields.current).value] && fields.current == Some(old(fields.current).value + 1)
      ensures |Values()| <= old(fields.current).value ==> r == None
    {
      r := fields.GetNext();
    }
  }
}
