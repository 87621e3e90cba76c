/**
 * RowUtil: helpers that build a new row from existing ones (remove a field, append or
 * prepend a value, concatenate two rows) and the comma-separated rendering of a row.
 * Every helper allocates a fresh row and fills it field by field; none writes to its inputs
 * (none of the methods below has a modifies clause).
 */
module RowUtil {
  import opened Wrappers
  import opened Rows

  /** The Java exceptions `remove` can end in. */
  datatype RowError =
    | NegativeArraySize   // `new Row(-1)` for a row of arity 0
    | IndexOutOfBounds    // a `setField` outside the new row

  // ---------------------------------------------------------------------------------------
  // Field-sequence meaning of the helpers

  /** The fields of `s` without the one at `idx`: earlier fields stay, later ones shift down. */
  function Removed(s: seq<Field>, idx: nat): (r: seq<Field>)
    requires idx < |s|
    ensures |r| == |s| - 1
    ensures forall i :: 0 <= i < idx ==> r[i] == s[i]
    ensures forall i :: idx <= i < |r| ==> r[i] == s[i + 1]
  {
    s[..idx] + s[idx + 1..]
  }

  /** Appending a value and then removing the last field gives back the original fields. */
  lemma RemoveAfterMergeTail(s: seq<Field>, x: Field)
    ensures Removed(s + [x], |s|) == s
  {
    assert (s + [x])[..|s|] == s;
  }

  /** Prepending a value and then removing field 0 gives back the original fields. */
  lemma RemoveAfterMergeHead(x: Field, s: seq<Field>)
    ensures Removed([x] + s, 0) == s
  {
    assert ([x] + s)[1..] == s;
  }

  /** Removing field `idx` and putting the removed value back at `idx` restores the fields. */
  lemma {:induction false} RemovedThenInserted(s: seq<Field>, idx: nat)
    requires idx < |s|
    ensures Removed(s, idx)[..idx] + [s[idx]] + Removed(s, idx)[idx..] == s
  {
    var r := Removed(s, idx);
    var t := r[..idx] + [s[idx]] + r[idx..];
    assert |t| == |s|;
    forall i | 0 <= i < |s| ensures t[i] == s[i] {
      if i < idx {
        assert t[i] == r[i];
      } else if i > idx {
        assert t[i] == r[i - 1];
      }
    }
  }

  // ---------------------------------------------------------------------------------------
  // The helpers, as the source writes them: allocate, then copy with index loops

  /**
   * `remove(rec, idx)`. For 0 <= idx < arity the new row holds the other fields in order.
   * An arity-0 row fails when the result row of arity -1 is allocated; any other idx fails
   * at the first write outside the new row.
   */
  method Remove(rec: Row, idx: int) returns (res: Result<Row, RowError>)
    ensures rec.Arity() == 0 ==> res == Failure(NegativeArraySize)
    ensures 0 < rec.Arity() && !(0 <= idx < rec.Arity()) ==> res == Failure(IndexOutOfBounds)
    ensures 0 <= idx < rec.Arity() ==>
              res.Success? && fresh(res.value.fields) && res.value.Fields() == Removed(rec.Fields(), idx)
  {
    var n1 := rec.Arity();
    if n1 - 1 < 0 {
      return Failure(NegativeArraySize);
    }
    var ret := new Row(n1 - 1);
    for i := 0 to n1
      invariant idx < 0 ==> i == 0
      invariant idx >= n1 ==> i < n1
      invariant forall j :: 0 <= j < i && j < idx && j < n1 - 1 ==> ret.fields[j] == rec.fields[j]
      invariant forall j :: 0 < j < i && idx < j ==> ret.fields[j - 1] == rec.fields[j]
    {
      if i < idx {
        if i >= ret.Arity() {
          return Failure(IndexOutOfBounds);
        }
        ret.SetField(i, rec.fields[i]);
      } else if i > idx {
        if i - 1 < 0 {
          return Failure(IndexOutOfBounds);
        }
        ret.SetField(i - 1, rec.fields[i]);
      }
    }
    assert ret.Fields() == Removed(rec.Fields(), idx);
    return Success(ret);
  }

  /** `merge(rec1, obj)`: the fields of `rec1` followed by `obj`. */
  method MergeTail(rec1: Row, obj: Field) returns (ret: Row)
    ensures fresh(ret.fields)
    ensures ret.Fields() == rec1.Fields() + [obj]
  {
    var n1 := rec1.Arity();
    ret := new Row(n1 + 1);
    for i := 0 to n1
      invariant forall j :: 0 <= j < i ==> ret.fields[j] == rec1.fields[j]
    {
      ret.SetField(i, rec1.fields[i]);
    }
    ret.SetField(n1, obj);
  }

  /** `merge(obj, rec1)`: `obj` followed by the fields of `rec1`, shifted up by one. */
  method MergeHead(obj: Field, rec1: Row) returns (ret: Row)
    ensures fresh(ret.fields)
    ensures ret.Fields() == [obj] + rec1.Fields()
  {
    var n1 := rec1.Arity();
    ret := new Row(n1 + 1);
    ret.SetField(0, obj);
    for i := 0 to n1
      invariant ret.fields[0] == obj
      invariant forall j :: 0 <= j < i ==> ret.fields[j + 1] == rec1.fields[j]
    {
      ret.SetField(i + 1, rec1.fields[i]);
    }
  }

  /** `merge(rec1, rec2)`: the fields of `rec1` followed by those of `rec2`. */
  method Merge(rec1: Row, rec2: Row) returns (ret: Row)
    ensures fresh(ret.fields)
    ensures ret.Fields() == rec1.Fields() + rec2.Fields()
  {
    var n1 := rec1.Arity();
    var n2 := rec2.Arity();
    ret := new Row(n1 + n2);
    for i := 0 to n1
      invariant forall j :: 0 <= j < i ==> ret.fields[j] == rec1.fields[j]
    {
      ret.SetField(i, rec1.fields[i]);
    }
    for i := 0 to n2
      invariant forall j :: 0 <= j < n1 ==> ret.fields[j] == rec1.fields[j]
      invariant forall j :: 0 <= j < i ==> ret.fields[j + n1] == rec2.fields[j]
    {
      ret.SetField(i + n1, rec2.fields[i]);
    }
  }

  /** Merging rows is associative in content: both bracketings give the same fields. */
  method MergeAssociative(a: Row, b: Row, c: Row) returns (left: Row, right: Row)
    ensures left.Fields() == right.Fields() == a.Fields() + b.Fields() + c.Fields()
  {
    var ab := Merge(a, b);
    left := Merge(ab, c);
    var bc := Merge(b, c);
    right := Merge(a, bc);
  }

  // ---------------------------------------------------------------------------------------
  // rowToString

  /**
   * The text of one field: `Arrays.deepToString` of a one-element array with its brackets
   * stripped, which is "null" for a null field. How a non-null value is rendered is the
   * Java library's business and is given as `format`.
   */
  function FieldText(f: Field, format: Field -> string): string
  {
    if f.Null? then "null" else format(f)
  }

  function FieldTexts(fields: seq<Field>, format: Field -> string): (ts: seq<string>)
    ensures |ts| == |fields|
  {
    seq(|fields|, i requires 0 <= i < |fields| => FieldText(fields[i], format))
  }

  /** The parts in order with one comma between neighbours, as the rendering loop builds it. */
  function Joined(parts: seq<string>): string
  {
    if |parts| == 0 then ""
    else if |parts| == 1 then parts[0]
    else Joined(parts[..|parts| - 1]) + "," + parts[|parts| - 1]
  }

  /** `rowToString(row)`: "null" for a null row, otherwise the field texts joined by commas. */
  method RowToString(row: Row?, format: Field -> string) returns (s: string)
    ensures row == null ==> s == "null"
    ensures row != null ==> s == Joined(FieldTexts(row.Fields(), format))
  {
    if row == null {
      return "null";
    }
    s := "";
    for i := 0 to row.Arity()
      invariant s == Joined(FieldTexts(row.fields[..i], format))
    {
      if i > 0 {
        s := s + ",";
      }
      s := s + FieldText(row.fields[i], format);
      assert FieldTexts(row.fields[..i + 1], format)
          == FieldTexts(row.fields[..i], format) + [FieldText(row.fields[i], format)];
    }
    assert row.fields[..row.Arity()] == row.Fields();
  }

  /** An arity-0 row renders as the empty string. */
  lemma EmptyRowText(format: Field -> string)
    ensures Joined(FieldTexts([], format)) == ""
  {
  }

  /** Joining splits at any boundary into two joined halves and one comma. */
  lemma {:induction false} JoinedConcat(a: seq<string>, b: seq<string>)
    requires |a| > 0 && |b| > 0
    ensures Joined(a + b) == Joined(a) + "," + Joined(b)
    decreases |b|
  {
    if |b| == 1 {
      assert (a + b)[..|a + b| - 1] == a;
    } else {
      var b' := b[..|b| - 1];
      assert (a + b)[..|a + b| - 1] == a + b';
      JoinedConcat(a, b');
    }
  }

  /** The pieces of `s` between commas, in order (there is always at least one). */
  function SplitCommas(s: string): (parts: seq<string>)
    ensures |parts| >= 1
  {
    if |s| == 0 then [""]
    else
      var rest := SplitCommas(s[1..]);
      if s[0] == ',' then [""] + rest
      else [[s[0]] + rest[0]] + rest[1..]
  }

  lemma {:induction false} SplitCommaFree(p: string)
    requires ',' !in p
    ensures SplitCommas(p) == [p]
  {
    if |p| > 0 {
      assert p[0] != ',';
      assert ',' !in p[1..];
      SplitCommaFree(p[1..]);
      assert [p[0]] + p[1..] == p;
    }
  }

  lemma {:induction false} SplitAfterPiece(p: string, t: string)
    requires ',' !in p
    ensures SplitCommas(p + "," + t) == [p] + SplitCommas(t)
  {
    if |p| == 0 {
      assert p + "," + t == [','] + t;
      assert (p + "," + t)[1..] == t;
    } else {
      var s := p + "," + t;
      assert s[0] == p[0] && p[0] != ',';
      assert s[1..] == p[1..] + "," + t;
      assert ',' !in p[1..];
      SplitAfterPiece(p[1..], t);
      assert [p[0]] + p[1..] == p;
    }
  }

  /**
   * When no field text contains a comma, splitting the rendered row at its commas gives
   * back the field texts in field order: the texts are separated by single commas, with none
   * before the first or after the last.
   */
  lemma {:induction false} SplitJoined(parts: seq<string>)
    requires |parts| > 0
    requires forall i :: 0 <= i < |parts| ==> ',' !in parts[i]
    ensures SplitCommas(Joined(parts)) == parts
    decreases |parts|
  {
    if |parts| == 1 {
      SplitCommaFree(parts[0]);
    } else {
      var tail := parts[1..];
      assert [parts[0]] + tail == parts;
      JoinedConcat([parts[0]], tail);
      SplitAfterPiece(parts[0], Joined(tail));
      SplitJoined(tail);
    }
  }
}
