/** Flink's Row: a fixed-arity record of nullable fields, updated in place with setField. */
module Rows {

  /** The field values this core stores in rows: Java null, a Long, or a String. */
  datatype Field = Null | Long(n: int) | Str(s: string)

  /** A row owns one array of fields; its arity is fixed when it is allocated. */
  class Row {
    const fields: array<Field>

    /** `new Row(arity)`: every field starts out null. */
    constructor (arity: nat)
      ensures fresh(fields)
      ensures fields.Length == arity
      ensures forall i :: 0 <= i < arity ==> fields[i] == Null
    {
      fields := new Field[arity](_ => Null);
    }

    function Arity(): nat
    {
      fields.Length
    }

    /** The current contents of the row, field by field. */
    function Fields(): (s: seq<Field>)
      reads fields
      ensures |s| == Arity()
    {
      fields[..]
    }

    /** `setField(i, v)`: replaces field `i` and nothing else. */
    method SetField(i: nat, v: Field)
      requires i < Arity()
      modifies fields
      ensures Fields() == old(Fields())[i := v]
    {
      fields[i] := v;
    }
  }
}
