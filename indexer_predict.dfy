/**
 * The prediction pipeline of the huge multi-column indexer-to-string operator. Each record
 * gets a unique id; the selected fields, which hold token indices, are flattened into one
 * tuple per selected column; a left-outer join against the model entries on (position,
 * token index) turns each tuple into the token string, or "null" when nothing matches; the
 * tuples are grouped by id and scattered into one row per record; that row is joined back
 * with its record by id.
 *
 * Flink's distributed data sets become sequences (in input order), its joins and group-by
 * become relational functions over them, and the ids from zipWithUniqueId are taken as
 * given and unique.
 */
module IndexerPredict {
  import opened Wrappers
  import opened Rows
  import opened IndexerModel

  /** `Tuple2<Long, Row>`: a record id and the record's fields. */
  datatype Record = Record(id: int, fields: seq<Field>)

  /** `Tuple3<Long, Integer, Long>`: record id, position of the selected column, token index. */
  datatype Flat = Flat(id: int, position: int, tokenIndex: int)

  /** `Tuple3<Long, Integer, String>`: record id, position of the selected column, token. */
  datatype Indexed = Indexed(id: int, position: int, token: string)

  /** The token index a null field is flattened to. */
  const NullTokenIndex: int := -1

  /** The token a tuple gets when no model entry matches it. */
  const UnmatchedToken: string := "null"

  // ---------------------------------------------------------------------------------------
  // Output schema

  /** The column types this core deals in. */
  datatype ColumnType = StringType | LongType | IntType

  /**
   * Output column names default to the selected column names (`outputColNames` is null
   * when not set), and every output column is a string column.
   */
  function OutputSchema(selectedColNames: seq<string>, outputColNames: Option<seq<string>>)
    : (schema: (seq<string>, seq<ColumnType>))
    ensures outputColNames.None? ==> schema.0 == selectedColNames
    ensures outputColNames.Some? ==> schema.0 == outputColNames.value
    ensures |schema.1| == |schema.0|
    ensures forall i :: 0 <= i < |schema.1| ==> schema.1[i] == StringType
  {
    var names := if outputColNames.None? then selectedColNames else outputColNames.value;
    (names, seq(|names|, _ => StringType))
  }

  // ---------------------------------------------------------------------------------------
  // Flatten

  /**
   * Every selected field index lies inside the record and the field there is null or a
   * Long (the cast to Long fails on anything else).
   */
  predicate Readable(fields: seq<Field>, selectedColIdx: seq<int>)
  {
    forall i :: 0 <= i < |selectedColIdx| ==>
      0 <= selectedColIdx[i] < |fields| && (fields[selectedColIdx[i]].Null? || fields[selectedColIdx[i]].Long?)
  }

  predicate AllReadable(data: seq<Record>, selectedColIdx: seq<int>)
  {
    forall r :: r in data ==> Readable(r.fields, selectedColIdx)
  }

  function TokenIndexOf(f: Field): int
    requires f.Null? || f.Long?
  {
    if f.Null? then NullTokenIndex else f.n
  }

  /** The tuples flattening emits for one record. */
  function Flattened(rec: Record, selectedColIdx: seq<int>): (out: seq<Flat>)
    requires Readable(rec.fields, selectedColIdx)
    ensures |out| == |selectedColIdx|
    ensures forall i :: 0 <= i < |out| ==> out[i].id == rec.id && out[i].position == i
    ensures forall i :: 0 <= i < |out| && rec.fields[selectedColIdx[i]].Null? ==> out[i].tokenIndex == NullTokenIndex
    ensures forall i :: 0 <= i < |out| && rec.fields[selectedColIdx[i]].Long? ==>
              out[i].tokenIndex == rec.fields[selectedColIdx[i]].n
  {
    seq(|selectedColIdx|, i requires 0 <= i < |selectedColIdx| =>
      Flat(rec.id, i, TokenIndexOf(rec.fields[selectedColIdx[i]])))
  }

  /**
   * The flatMap of the flatten step for one record: exactly one tuple per selected column,
   * positions 0..k-1 in order, each carrying the record id, the Long value of the field, or
   * -1 for a null field.
   */
  method FlattenRecord(id: int, row: Row, selectedColIdx: seq<int>) returns (out: seq<Flat>)
    requires Readable(row.Fields(), selectedColIdx)
    ensures |out| == |selectedColIdx|
    ensures forall i :: 0 <= i < |selectedColIdx| ==>
              out[i].id == id && out[i].position == i &&
              out[i].tokenIndex == (if row.fields[selectedColIdx[i]].Null? then -1 else row.fields[selectedColIdx[i]].n)
    ensures out == Flattened(Record(id, row.Fields()), selectedColIdx)
  {
    out := [];
    for i := 0 to |selectedColIdx|
      invariant |out| == i
      invariant forall j :: 0 <= j < i ==> out[j] == Flat(id, j, TokenIndexOf(row.fields[selectedColIdx[j]]))
    {
      var o := row.fields[selectedColIdx[i]];
      if o != Null {
        out := out + [Flat(id, i, o.n)];
      } else {
        out := out + [Flat(id, i, -1)];
      }
    }
  }

  /** The flatten step over the whole data set. */
  function FlattenAll(data: seq<Record>, selectedColIdx: seq<int>): (out: seq<Flat>)
    requires AllReadable(data, selectedColIdx)
    ensures forall t :: t in out ==> 0 <= t.position < |selectedColIdx|
    ensures forall t :: t in out ==> exists r :: r in data && r.id == t.id
  {
    if data == [] then []
    else
      var head := Flattened(data[0], selectedColIdx);
      assert forall t :: t in head ==> t.id == data[0].id;
      head + FlattenAll(data[1..], selectedColIdx)
  }

  // ---------------------------------------------------------------------------------------
  // Left-outer join with the model entries on (position, token index)

  /** The join function: keeps id and position; the token of the match, or "null". */
  function JoinFunction(first: Flat, second: Option<Entry>): (o: Indexed)
    ensures o.id == first.id && o.position == first.position
    ensures second.None? ==> o.token == UnmatchedToken
    ensures second.Some? ==> o.token == second.value.token
  {
    if second.None? then Indexed(first.id, first.position, UnmatchedToken)
    else Indexed(first.id, first.position, second.value.token)
  }

  /** The model entries whose key (position, token index) is the given one, in order. */
  function Matches(entries: seq<Entry>, position: int, tokenIndex: int): (ms: seq<Entry>)
    ensures forall e :: e in ms <==> e in entries && e.position == position && e.tokenIndex == tokenIndex
  {
    if entries == [] then []
    else
      var e := entries[0];
      (if e.position == position && e.tokenIndex == tokenIndex then [e] else [])
      + Matches(entries[1..], position, tokenIndex)
  }

  /**
   * The left-outer join for one flattened tuple: one output per matching entry, or a single
   * "null" output when there is none. Every output keeps the tuple's id and position.
   */
  function JoinOne(t: Flat, entries: seq<Entry>): (out: seq<Indexed>)
    ensures |out| >= 1
    ensures Matches(entries, t.position, t.tokenIndex) != [] ==> |out| == |Matches(entries, t.position, t.tokenIndex)|
    ensures forall i :: 0 <= i < |Matches(entries, t.position, t.tokenIndex)| ==>
              out[i].token == Matches(entries, t.position, t.tokenIndex)[i].token
    ensures forall o :: o in out ==> o.id == t.id && o.position == t.position
    ensures Matches(entries, t.position, t.tokenIndex) == [] ==> out == [Indexed(t.id, t.position, UnmatchedToken)]
    ensures forall o :: o in out && Matches(entries, t.position, t.tokenIndex) != [] ==>
              exists e :: e in entries && e.position == t.position && e.tokenIndex == t.tokenIndex && o.token == e.token
  {
    var ms := Matches(entries, t.position, t.tokenIndex);
    if ms == [] then [JoinFunction(t, None)]
    else
      var out := seq(|ms|, i requires 0 <= i < |ms| => JoinFunction(t, Some(ms[i])));
      assert forall o :: o in out ==> exists i :: 0 <= i < |ms| && o == JoinFunction(t, Some(ms[i]));
      out
  }

  /** The left-outer join over all flattened tuples. */
  function LeftOuterJoin(flat: seq<Flat>, entries: seq<Entry>): (out: seq<Indexed>)
    ensures forall o :: o in out ==> exists t :: t in flat && o.id == t.id && o.position == t.position
  {
    if flat == [] then []
    else JoinOne(flat[0], entries) + LeftOuterJoin(flat[1..], entries)
  }

  lemma {:induction false} LeftOuterJoinConcat(a: seq<Flat>, b: seq<Flat>, entries: seq<Entry>)
    ensures LeftOuterJoin(a + b, entries) == LeftOuterJoin(a, entries) + LeftOuterJoin(b, entries)
  {
    if a == [] {
      assert a + b == b;
    } else {
      assert (a + b)[1..] == a[1..] + b;
      LeftOuterJoinConcat(a[1..], b, entries);
    }
  }

  /** No two model entries share a (position, token index) key. */
  predicate UniqueKeys(entries: seq<Entry>)
  {
    forall i, j :: 0 <= i < j < |entries| ==>
      entries[i].position != entries[j].position || entries[i].tokenIndex != entries[j].tokenIndex
  }

  lemma {:induction false} AtMostOneMatch(entries: seq<Entry>, position: int, tokenIndex: int)
    requires UniqueKeys(entries)
    ensures |Matches(entries, position, tokenIndex)| <= 1
  {
    if entries != [] {
      var tail := entries[1..];
      var e := entries[0];
      assert UniqueKeys(tail) by {
        forall i, j | 0 <= i < j < |tail|
          ensures tail[i].position != tail[j].position || tail[i].tokenIndex != tail[j].tokenIndex
        {
          assert tail[i] == entries[i + 1] && tail[j] == entries[j + 1];
        }
      }
      AtMostOneMatch(tail, position, tokenIndex);
      if e.position == position && e.tokenIndex == tokenIndex {
        forall f | f in tail ensures f.position != position || f.tokenIndex != tokenIndex {
          var j :| 0 <= j < |tail| && tail[j] == f;
          assert entries[j + 1] == f;
        }
        NoMatches(tail, position, tokenIndex);
      }
    }
  }

  lemma NoMatches(entries: seq<Entry>, position: int, tokenIndex: int)
    requires forall e :: e in entries ==> e.position != position || e.tokenIndex != tokenIndex
    ensures Matches(entries, position, tokenIndex) == []
  {
  }

  /** The token a (position, token index) key resolves to: its entry's token, or "null". */
  function Label(entries: seq<Entry>, position: int, tokenIndex: int): string
  {
    var ms := Matches(entries, position, tokenIndex);
    if ms == [] then UnmatchedToken else ms[0].token
  }

  /** Without a matching entry the key resolves to "null"; with unique keys, to the entry's token. */
  lemma LabelMeaning(entries: seq<Entry>, position: int, tokenIndex: int)
    ensures (forall e :: e in entries ==> e.position != position || e.tokenIndex != tokenIndex) ==>
              Label(entries, position, tokenIndex) == UnmatchedToken
    ensures UniqueKeys(entries) ==>
              forall e :: e in entries && e.position == position && e.tokenIndex == tokenIndex ==>
                Label(entries, position, tokenIndex) == e.token
  {
    var ms := Matches(entries, position, tokenIndex);
    if UniqueKeys(entries) {
      AtMostOneMatch(entries, position, tokenIndex);
      forall e | e in entries && e.position == position && e.tokenIndex == tokenIndex
        ensures Label(entries, position, tokenIndex) == e.token
      {
        assert e in ms;
        assert ms == [ms[0]];
      }
    }
    if ms != [] {
      assert ms[0] in ms;
    }
  }

  /** A flattened tuple resolved through the model entries: same id and position, its key's token. */
  function LookedUp(t: Flat, entries: seq<Entry>): Indexed
  {
    Indexed(t.id, t.position, Label(entries, t.position, t.tokenIndex))
  }

  /** With unique keys the join turns one flattened tuple into exactly one resolved tuple. */
  lemma JoinOneUnique(t: Flat, entries: seq<Entry>)
    requires UniqueKeys(entries)
    ensures JoinOne(t, entries) == [LookedUp(t, entries)]
  {
    AtMostOneMatch(entries, t.position, t.tokenIndex);
  }

  /** With unique keys the join turns each flattened tuple into exactly one resolved tuple, in order. */
  lemma {:induction false} JoinUnique(flat: seq<Flat>, entries: seq<Entry>)
    requires UniqueKeys(entries)
    ensures |LeftOuterJoin(flat, entries)| == |flat|
    ensures forall i :: 0 <= i < |flat| ==> LeftOuterJoin(flat, entries)[i] == LookedUp(flat[i], entries)
  {
    if flat != [] {
      JoinOneUnique(flat[0], entries);
      JoinUnique(flat[1..], entries);
      var out := LeftOuterJoin(flat, entries);
      assert out == [LookedUp(flat[0], entries)] + LeftOuterJoin(flat[1..], entries);
      forall i | 0 < i < |flat| ensures out[i] == LookedUp(flat[i], entries) {
        assert out[i] == LeftOuterJoin(flat[1..], entries)[i - 1];
        assert flat[1..][i - 1] == flat[i];
      }
    }
  }

  /** A null field is never matched, as long as no model entry uses the null token index. */
  lemma NullFieldIsUnmatched(entries: seq<Entry>, position: int)
    requires forall e :: e in entries ==> e.tokenIndex != NullTokenIndex
    ensures Label(entries, position, NullTokenIndex) == UnmatchedToken
  {
    LabelMeaning(entries, position, NullTokenIndex);
  }

  /**
   * A selected column that repeats an earlier one resolves to "null" whatever its value:
   * the model entries of that training column all went to the earlier position.
   */
  lemma RepeatedColumnIsNull(rows: seq<ModelRow>, trainCols: seq<string>, selectedColNames: seq<string>,
                             q: int, p: int, tokenIndex: int)
    requires ColumnPositions(trainCols, selectedColNames).Success?
    requires 0 <= q < p < |selectedColNames| && selectedColNames[q] == selectedColNames[p]
    ensures Label(ModelEntries(rows, ColumnPositions(trainCols, selectedColNames).value), p, tokenIndex) == UnmatchedToken
  {
    var ps := ColumnPositions(trainCols, selectedColNames).value;
    RepeatedColumnHasNoEntries(rows, ps, q, p);
    LabelMeaning(ModelEntries(rows, ps), p, tokenIndex);
  }

  // ---------------------------------------------------------------------------------------
  // Group by id and scatter into one row

  predicate PositionsBelow(values: seq<Indexed>, k: nat)
  {
    forall v :: v in values ==> 0 <= v.position < k
  }

  /** The row the group-reduce builds: all null, then each tuple's token written at its position. */
  function Scattered(values: seq<Indexed>, k: nat): (r: seq<Field>)
    requires PositionsBelow(values, k)
    ensures |r| == k
  {
    if values == [] then seq(k, _ => Null)
    else
      var last := values[|values| - 1];
      Scattered(values[..|values| - 1], k)[last.position := Str(last.token)]
  }

  /** The token of the last tuple at position `p`, if there is one. */
  function LastTokenAt(values: seq<Indexed>, p: int): (r: Option<string>)
    ensures r.None? <==> forall i :: 0 <= i < |values| ==> values[i].position != p
    ensures r.Some? ==>
              exists i :: 0 <= i < |values| && values[i].position == p && values[i].token == r.value &&
                forall j :: i < j < |values| ==> values[j].position != p
  {
    if values == [] then None
    else if values[|values| - 1].position == p then Some(values[|values| - 1].token)
    else
      var init := values[..|values| - 1];
      var r := LastTokenAt(init, p);
      assert forall i :: 0 <= i < |init| ==> init[i] == values[i];
      if r.None? then r
      else
        assert exists i :: 0 <= i < |values| && values[i].position == p && values[i].token == r.value &&
                 forall j :: i < j < |values| ==> values[j].position != p
        by {
          var i :| 0 <= i < |init| && init[i].position == p && init[i].token == r.value &&
                   forall j :: i < j < |init| ==> init[j].position != p;
          forall j | i < j < |values| ensures values[j].position != p {
            if j < |init| {
              assert init[j] == values[j];
            }
          }
        }
        r
  }

  /** Field `p` of the assembled row holds the token of the last tuple at `p`, or stays null. */
  lemma {:induction false} ScatteredAt(values: seq<Indexed>, k: nat, p: int)
    requires PositionsBelow(values, k)
    requires 0 <= p < k
    ensures Scattered(values, k)[p] == (match LastTokenAt(values, p) case None => Null case Some(s) => Str(s))
  {
    if values != [] {
      var init := values[..|values| - 1];
      assert forall v :: v in init ==> v in values;
      ScatteredAt(init, k, p);
    }
  }

  /**
   * `reduce` of the group-reduce: a fresh row of arity k with each tuple's token set at its
   * position in turn, and the id of the last tuple seen (none for an empty group).
   */
  method Reduce(values: seq<Indexed>, k: nat) returns (id: Option<int>, r: Row)
    requires PositionsBelow(values, k)
    ensures fresh(r.fields)
    ensures r.Fields() == Scattered(values, k)
    ensures id == if values == [] then None else Some(values[|values| - 1].id)
  {
    id := None;
    r := new Row(k);
    assert r.Fields() == Scattered([], k);
    for i := 0 to |values|
      invariant r.Fields() == Scattered(values[..i], k)
      invariant id == if i == 0 then None else Some(values[i - 1].id)
    {
      var v := values[i];
      assert values[..i + 1][..i] == values[..i];
      assert forall w :: w in values[..i + 1] ==> w in values;
      r.SetField(v.position, Str(v.token));
      id := Some(v.id);
    }
    assert values[..|values|] == values;
  }

  /** No two tuples share a position. */
  predicate DistinctPositions(values: seq<Indexed>)
  {
    forall i, j :: 0 <= i < j < |values| ==> values[i].position != values[j].position
  }

  /**
   * The group-by hands a group over in no particular order. When the tuples of a group
   * have distinct positions, every order assembles the same row.
   */
  lemma ScatteredOrderFree(values: seq<Indexed>, shuffled: seq<Indexed>, k: nat)
    requires PositionsBelow(values, k) && DistinctPositions(values)
    requires multiset(shuffled) == multiset(values)
    ensures PositionsBelow(shuffled, k)
    ensures Scattered(shuffled, k) == Scattered(values, k)
  {
    assert forall v :: v in shuffled <==> v in values by {
      forall v ensures v in shuffled <==> v in values {
        assert v in shuffled <==> v in multiset(shuffled);
      }
    }
    forall p | 0 <= p < k ensures Scattered(shuffled, k)[p] == Scattered(values, k)[p] {
      ScatteredAt(values, k, p);
      ScatteredAt(shuffled, k, p);
      var a, b := LastTokenAt(values, p), LastTokenAt(shuffled, p);
      if a.None? {
        forall i | 0 <= i < |shuffled| ensures shuffled[i].position != p {
          assert shuffled[i] in values;
        }
      } else {
        var i :| 0 <= i < |values| && values[i].position == p && values[i].token == a.value;
        assert values[i] in shuffled;
        assert b.Some?;
        var j :| 0 <= j < |shuffled| && shuffled[j].position == p && shuffled[j].token == b.value;
        assert shuffled[j] in values;
        var i' :| 0 <= i' < |values| && values[i'] == shuffled[j];
        assert i' == i;
      }
    }
  }

  /** A group holding exactly one tuple per position 0..k-1, in order, assembles those tokens. */
  lemma ScatteredOnePerPosition(values: seq<Indexed>, k: nat)
    requires |values| == k
    requires forall p :: 0 <= p < k ==> values[p].position == p
    ensures PositionsBelow(values, k)
    ensures Scattered(values, k) == seq(k, p requires 0 <= p < k => Str(values[p].token))
  {
    assert PositionsBelow(values, k);
    forall p | 0 <= p < k ensures Scattered(values, k)[p] == Str(values[p].token) {
      ScatteredAt(values, k, p);
    }
  }

  /** The group of one id: its tuples, in order. */
  function GroupOf(indexed: seq<Indexed>, id: int): (g: seq<Indexed>)
    ensures forall v :: v in g <==> v in indexed && v.id == id
  {
    if indexed == [] then []
    else (if indexed[0].id == id then [indexed[0]] else []) + GroupOf(indexed[1..], id)
  }

  lemma {:induction false} GroupOfConcat(a: seq<Indexed>, b: seq<Indexed>, id: int)
    ensures GroupOf(a + b, id) == GroupOf(a, id) + GroupOf(b, id)
  {
    if a == [] {
      assert a + b == b;
    } else {
      assert (a + b)[1..] == a[1..] + b;
      GroupOfConcat(a[1..], b, id);
    }
  }

  lemma {:induction false} GroupOfAll(values: seq<Indexed>, id: int)
    requires forall v :: v in values ==> v.id == id
    ensures GroupOf(values, id) == values
  {
    if values != [] {
      assert values[0] in values;
      assert forall v :: v in values[1..] ==> v in values;
      GroupOfAll(values[1..], id);
    }
  }

  lemma GroupOfNone(values: seq<Indexed>, id: int)
    requires forall v :: v in values ==> v.id != id
    ensures GroupOf(values, id) == []
  {
    if GroupOf(values, id) != [] {
      assert GroupOf(values, id)[0] in GroupOf(values, id);
    }
  }

  function IdsOf(indexed: seq<Indexed>): set<int>
  {
    set v | v in indexed :: v.id
  }

  /** The group-reduce: one assembled row per id present in the join output. */
  function Aggregated(indexed: seq<Indexed>, k: nat): (agg: map<int, seq<Field>>)
    requires PositionsBelow(indexed, k)
    ensures agg.Keys == IdsOf(indexed)
    ensures forall id :: id in agg ==> |agg[id]| == k
  {
    map id | id in IdsOf(indexed) :: Scattered(GroupOf(indexed, id), k)
  }

  /**
   * Field p of the row assembled for an id holds the token of the last tuple of that id at
   * p, or stays null.
   */
  lemma AggregatedAt(indexed: seq<Indexed>, k: nat, id: int, p: int)
    requires PositionsBelow(indexed, k)
    requires id in IdsOf(indexed) && 0 <= p < k
    ensures Aggregated(indexed, k)[id][p] ==
              match LastTokenAt(GroupOf(indexed, id), p) case None => Null case Some(s) => Str(s)
  {
    ScatteredAt(GroupOf(indexed, id), k, p);
  }

  // ---------------------------------------------------------------------------------------
  // Join the assembled rows back with their records

  /**
   * The final inner join on id: each record whose id has an assembled row yields
   * `resultRow(record, assembled)`; `resultRow` is the output-column placement step.
   */
  function Recombined(data: seq<Record>, agg: map<int, seq<Field>>,
                      resultRow: (seq<Field>, seq<Field>) -> seq<Field>): (out: seq<seq<Field>>)
    ensures |out| <= |data|
    ensures forall o :: o in out ==> exists r :: r in data && r.id in agg && o == resultRow(r.fields, agg[r.id])
  {
    if data == [] then []
    else
      (if data[0].id in agg then [resultRow(data[0].fields, agg[data[0].id])] else [])
      + Recombined(data[1..], agg, resultRow)
  }

  lemma {:induction false} RecombinedAll(data: seq<Record>, agg: map<int, seq<Field>>,
                                         resultRow: (seq<Field>, seq<Field>) -> seq<Field>)
    requires forall r :: r in data ==> r.id in agg
    ensures Recombined(data, agg, resultRow) ==
              seq(|data|, j requires 0 <= j < |data| => resultRow(data[j].fields, agg[data[j].id]))
  {
    if data != [] {
      assert forall r :: r in data[1..] ==> r in data;
      RecombinedAll(data[1..], agg, resultRow);
    }
  }

  // ---------------------------------------------------------------------------------------
  // The whole operator

  /**
   * The operator on a model and a data set: `trainColsOf` decodes the meta text into the
   * training column names, `selectedColIdx` are the positions of the selected columns in
   * the data schema. Fails as reading the model fails; otherwise one output per record that
   * survives the final join.
   */
  function Predict(modelRows: seq<ModelRow>, trainColsOf: string -> seq<string>,
                   selectedColNames: seq<string>, data: seq<Record>, selectedColIdx: seq<int>,
                   resultRow: (seq<Field>, seq<Field>) -> seq<Field>): (r: Result<seq<seq<Field>>, ModelError>)
    requires |selectedColIdx| == |selectedColNames|
    requires AllReadable(data, selectedColIdx)
    ensures |ModelMeta(modelRows)| != 1 ==> r == Failure(InvalidModel)
    ensures |ModelMeta(modelRows)| == 1 ==>
              (r.Failure? <==> exists j :: 0 <= j < |selectedColNames| &&
                                 selectedColNames[j] !in trainColsOf(ModelMeta(modelRows)[0]))
    ensures r.Failure? ==> r.error == InvalidModel || r.error.name in selectedColNames
    ensures r.Success? ==> |r.value| <= |data|
  {
    var metas := ModelMeta(modelRows);
    if |metas| != 1 then Failure(InvalidModel)
    else match ColumnPositions(trainColsOf(metas[0]), selectedColNames)
      case Failure(e) => Failure(e)
      case Success(colIdxInModel) =>
        var entries := ModelEntries(modelRows, colIdxInModel);
        var indexed := LeftOuterJoin(FlattenAll(data, selectedColIdx), entries);
        Success(Recombined(data, Aggregated(indexed, |selectedColIdx|), resultRow))
  }

  /** Ids from zipWithUniqueId: no two records share one. */
  predicate UniqueIds(data: seq<Record>)
  {
    forall i, j :: 0 <= i < j < |data| ==> data[i].id != data[j].id
  }

  /** The strings the operator assembles for one record: each selected field's token, or "null". */
  function ExpectedRow(entries: seq<Entry>, rec: Record, selectedColIdx: seq<int>): (r: seq<Field>)
    requires Readable(rec.fields, selectedColIdx)
    ensures |r| == |selectedColIdx|
  {
    seq(|selectedColIdx|, p requires 0 <= p < |selectedColIdx| =>
      Str(Label(entries, p, TokenIndexOf(rec.fields[selectedColIdx[p]]))))
  }

  /** Every tuple of the join output carries the id of some record. */
  lemma JoinedIdFrom(data: seq<Record>, selectedColIdx: seq<int>, entries: seq<Entry>, v: Indexed)
    requires AllReadable(data, selectedColIdx)
    requires v in LeftOuterJoin(FlattenAll(data, selectedColIdx), entries)
    ensures exists i :: 0 <= i < |data| && data[i].id == v.id
  {
    var t :| t in FlattenAll(data, selectedColIdx) && v.id == t.id && v.position == t.position;
    var r :| r in data && r.id == t.id;
    var i :| 0 <= i < |data| && data[i] == r;
  }

  /** Every tuple joined from one record's tuples carries that record's id. */
  lemma JoinedRecordIds(rec: Record, selectedColIdx: seq<int>, entries: seq<Entry>)
    requires Readable(rec.fields, selectedColIdx)
    ensures forall v :: v in LeftOuterJoin(Flattened(rec, selectedColIdx), entries) ==> v.id == rec.id
  {
    var flat := Flattened(rec, selectedColIdx);
    forall v | v in LeftOuterJoin(flat, entries) ensures v.id == rec.id {
      var t :| t in flat && v.id == t.id && v.position == t.position;
      var i :| 0 <= i < |flat| && flat[i] == t;
    }
  }

  /** One output per record, in input order: the record combined with its expected row. */
  function ExpectedOutputs(entries: seq<Entry>, data: seq<Record>, selectedColIdx: seq<int>,
                           resultRow: (seq<Field>, seq<Field>) -> seq<Field>): (out: seq<seq<Field>>)
    requires AllReadable(data, selectedColIdx)
    ensures |out| == |data|
  {
    seq(|data|, j requires 0 <= j < |data| =>
      assert data[j] in data;
      resultRow(data[j].fields, ExpectedRow(entries, data[j], selectedColIdx)))
  }

  /** The join output of a data set is that of its first record followed by that of the rest. */
  lemma JoinedSplit(data: seq<Record>, selectedColIdx: seq<int>, entries: seq<Entry>)
    requires AllReadable(data, selectedColIdx) && data != []
    ensures AllReadable(data[1..], selectedColIdx) && Readable(data[0].fields, selectedColIdx)
    ensures LeftOuterJoin(FlattenAll(data, selectedColIdx), entries)
         == LeftOuterJoin(Flattened(data[0], selectedColIdx), entries)
          + LeftOuterJoin(FlattenAll(data[1..], selectedColIdx), entries)
  {
    assert data[0] in data;
    assert forall r :: r in data[1..] ==> r in data;
    LeftOuterJoinConcat(Flattened(data[0], selectedColIdx), FlattenAll(data[1..], selectedColIdx), entries);
  }

  /** The join output restricted to one record's id is exactly that record's joined tuples. */
  lemma {:induction false} GroupOfRecord(data: seq<Record>, selectedColIdx: seq<int>, entries: seq<Entry>, j: int)
    requires AllReadable(data, selectedColIdx) && UniqueIds(data)
    requires 0 <= j < |data|
    ensures GroupOf(LeftOuterJoin(FlattenAll(data, selectedColIdx), entries), data[j].id)
         == LeftOuterJoin(Flattened(data[j], selectedColIdx), entries)
  {
    JoinedSplit(data, selectedColIdx, entries);
    var rest := data[1..];
    var head := LeftOuterJoin(Flattened(data[0], selectedColIdx), entries);
    var tail := LeftOuterJoin(FlattenAll(rest, selectedColIdx), entries);
    GroupOfConcat(head, tail, data[j].id);
    JoinedRecordIds(data[0], selectedColIdx, entries);
    if j == 0 {
      GroupOfAll(head, data[0].id);
      GroupOfRest(data, selectedColIdx, entries);
    } else {
      GroupOfNone(head, data[j].id);
      assert UniqueIds(rest) by {
        forall a, b | 0 <= a < b < |rest| ensures rest[a].id != rest[b].id {
          assert rest[a] == data[a + 1] && rest[b] == data[b + 1];
        }
      }
      assert rest[j - 1] == data[j];
      GroupOfRecord(rest, selectedColIdx, entries, j - 1);
    }
  }

  /** No tuple joined from the other records carries the first record's id. */
  lemma GroupOfRest(data: seq<Record>, selectedColIdx: seq<int>, entries: seq<Entry>)
    requires AllReadable(data, selectedColIdx) && UniqueIds(data) && data != []
    ensures AllReadable(data[1..], selectedColIdx)
    ensures GroupOf(LeftOuterJoin(FlattenAll(data[1..], selectedColIdx), entries), data[0].id) == []
  {
    var rest := data[1..];
    assert forall r :: r in rest ==> r in data;
    var tail := LeftOuterJoin(FlattenAll(rest, selectedColIdx), entries);
    forall v | v in tail ensures v.id != data[0].id {
      JoinedIdFrom(rest, selectedColIdx, entries, v);
      var i :| 0 <= i < |rest| && rest[i].id == v.id;
      assert data[i + 1] == rest[i];
    }
    GroupOfNone(tail, data[0].id);
  }

  /** Every position in the join output is the position of a selected column. */
  lemma JoinedPositions(data: seq<Record>, selectedColIdx: seq<int>, entries: seq<Entry>)
    requires AllReadable(data, selectedColIdx)
    ensures PositionsBelow(LeftOuterJoin(FlattenAll(data, selectedColIdx), entries), |selectedColIdx|)
  {
    forall v | v in LeftOuterJoin(FlattenAll(data, selectedColIdx), entries)
      ensures 0 <= v.position < |selectedColIdx|
    {
      var t :| t in FlattenAll(data, selectedColIdx) && v.id == t.id && v.position == t.position;
    }
  }

  /** The row assembled from one record's joined tuples holds each selected field's token, or "null". */
  lemma RecordRow(rec: Record, selectedColIdx: seq<int>, entries: seq<Entry>)
    requires Readable(rec.fields, selectedColIdx) && UniqueKeys(entries)
    ensures PositionsBelow(LeftOuterJoin(Flattened(rec, selectedColIdx), entries), |selectedColIdx|)
    ensures Scattered(LeftOuterJoin(Flattened(rec, selectedColIdx), entries), |selectedColIdx|)
         == ExpectedRow(entries, rec, selectedColIdx)
  {
    var k := |selectedColIdx|;
    var flat := Flattened(rec, selectedColIdx);
    var group := LeftOuterJoin(flat, entries);
    JoinUnique(flat, entries);
    forall p | 0 <= p < k ensures group[p].position == p {
      assert group[p] == LookedUp(flat[p], entries);
    }
    ScatteredOnePerPosition(group, k);
    forall p | 0 <= p < k ensures Scattered(group, k)[p] == ExpectedRow(entries, rec, selectedColIdx)[p] {
      assert flat[p] == Flat(rec.id, p, TokenIndexOf(rec.fields[selectedColIdx[p]]));
      assert group[p] == LookedUp(flat[p], entries);
    }
  }

  /** The row assembled for record `j` holds the token of each selected field, or "null". */
  lemma AssembledRow(data: seq<Record>, selectedColIdx: seq<int>, entries: seq<Entry>, j: int)
    requires AllReadable(data, selectedColIdx) && UniqueIds(data)
    requires |selectedColIdx| > 0 && UniqueKeys(entries)
    requires 0 <= j < |data|
    ensures PositionsBelow(LeftOuterJoin(FlattenAll(data, selectedColIdx), entries), |selectedColIdx|)
    ensures data[j].id in IdsOf(LeftOuterJoin(FlattenAll(data, selectedColIdx), entries))
    ensures Readable(data[j].fields, selectedColIdx)
    ensures Scattered(GroupOf(LeftOuterJoin(FlattenAll(data, selectedColIdx), entries), data[j].id), |selectedColIdx|)
         == ExpectedRow(entries, data[j], selectedColIdx)
  {
    var indexed := LeftOuterJoin(FlattenAll(data, selectedColIdx), entries);
    JoinedPositions(data, selectedColIdx, entries);
    var rec := data[j];
    assert rec in data;
    var group := LeftOuterJoin(Flattened(rec, selectedColIdx), entries);
    GroupOfRecord(data, selectedColIdx, entries, j);
    RecordRow(rec, selectedColIdx, entries);
    assert group[0] in GroupOf(indexed, rec.id);
  }

  /**
   * End to end: with a valid model, unique record ids, at least one selected column and
   * model entries with unique keys, every record yields exactly one output, in which
   * selected column p holds the token of the entry for (p, field value) or "null".
   */
  lemma PredictRecords(modelRows: seq<ModelRow>, trainColsOf: string -> seq<string>,
                       selectedColNames: seq<string>, data: seq<Record>, selectedColIdx: seq<int>,
                       resultRow: (seq<Field>, seq<Field>) -> seq<Field>, colIdxInModel: seq<int>)
    requires |selectedColIdx| == |selectedColNames| > 0
    requires AllReadable(data, selectedColIdx) && UniqueIds(data)
    requires |ModelMeta(modelRows)| == 1
    requires ColumnPositions(trainColsOf(ModelMeta(modelRows)[0]), selectedColNames) == Success(colIdxInModel)
    requires UniqueKeys(ModelEntries(modelRows, colIdxInModel))
    ensures Predict(modelRows, trainColsOf, selectedColNames, data, selectedColIdx, resultRow)
         == Success(ExpectedOutputs(ModelEntries(modelRows, colIdxInModel), data, selectedColIdx, resultRow))
  {
    var k := |selectedColIdx|;
    var entries := ModelEntries(modelRows, colIdxInModel);
    var indexed := LeftOuterJoin(FlattenAll(data, selectedColIdx), entries);
    PredictUnfold(modelRows, trainColsOf, selectedColNames, data, selectedColIdx, resultRow, colIdxInModel);
    var agg := Aggregated(indexed, k);
    forall j | 0 <= j < |data|
      ensures data[j].id in agg && agg[data[j].id] == ExpectedRow(entries, data[j], selectedColIdx)
    {
      AssembledRow(data, selectedColIdx, entries, j);
    }
    RecombinedExpected(data, agg, entries, selectedColIdx, resultRow);
  }

  /** Recombining with the expected rows gives the expected outputs, one per record. */
  lemma RecombinedExpected(data: seq<Record>, agg: map<int, seq<Field>>, entries: seq<Entry>,
                           selectedColIdx: seq<int>, resultRow: (seq<Field>, seq<Field>) -> seq<Field>)
    requires AllReadable(data, selectedColIdx)
    requires forall j :: 0 <= j < |data| ==>
               data[j] in data && data[j].id in agg && agg[data[j].id] == ExpectedRow(entries, data[j], selectedColIdx)
    ensures Recombined(data, agg, resultRow) == ExpectedOutputs(entries, data, selectedColIdx, resultRow)
  {
    forall r | r in data ensures r.id in agg {
      var j :| 0 <= j < |data| && data[j] == r;
    }
    RecombinedAll(data, agg, resultRow);
  }

  /** Reading a valid model leaves the data pass: flatten, join, aggregate, recombine. */
  lemma PredictUnfold(modelRows: seq<ModelRow>, trainColsOf: string -> seq<string>,
                      selectedColNames: seq<string>, data: seq<Record>, selectedColIdx: seq<int>,
                      resultRow: (seq<Field>, seq<Field>) -> seq<Field>, colIdxInModel: seq<int>)
    requires |selectedColIdx| == |selectedColNames|
    requires AllReadable(data, selectedColIdx)
    requires |ModelMeta(modelRows)| == 1
    requires ColumnPositions(trainColsOf(ModelMeta(modelRows)[0]), selectedColNames) == Success(colIdxInModel)
    ensures PositionsBelow(LeftOuterJoin(FlattenAll(data, selectedColIdx), ModelEntries(modelRows, colIdxInModel)), |selectedColIdx|)
    ensures Predict(modelRows, trainColsOf, selectedColNames, data, selectedColIdx, resultRow)
         == Success(Recombined(data, Aggregated(LeftOuterJoin(FlattenAll(data, selectedColIdx),
                                                              ModelEntries(modelRows, colIdxInModel)),
                                               |selectedColIdx|), resultRow))
  {
    JoinedPositions(data, selectedColIdx, ModelEntries(modelRows, colIdxInModel));
  }

  /** With no selected column nothing is flattened, so the final join drops every record. */
  lemma NoSelectedColumns(modelRows: seq<ModelRow>, trainColsOf: string -> seq<string>,
                          data: seq<Record>, resultRow: (seq<Field>, seq<Field>) -> seq<Field>)
    requires |ModelMeta(modelRows)| == 1
    ensures AllReadable(data, [])
    ensures Predict(modelRows, trainColsOf, [], data, [], resultRow) == Success([])
  {
    var indexed := LeftOuterJoin(FlattenAll(data, []), ModelEntries(modelRows, []));
    NoneRecombined(data, Aggregated(indexed, 0), resultRow);
  }

  lemma {:induction false} NoneRecombined(data: seq<Record>, agg: map<int, seq<Field>>,
                                          resultRow: (seq<Field>, seq<Field>) -> seq<Field>)
    requires agg == map[]
    ensures Recombined(data, agg, resultRow) == []
  {
    if data != [] {
      NoneRecombined(data[1..], agg, resultRow);
    }
  }

  /** A model without exactly one meta row fails the whole operator with "Invalid model.". */
  lemma InvalidModelFails(modelRows: seq<ModelRow>, trainColsOf: string -> seq<string>,
                          selectedColNames: seq<string>, data: seq<Record>, selectedColIdx: seq<int>,
                          resultRow: (seq<Field>, seq<Field>) -> seq<Field>)
    requires |selectedColIdx| == |selectedColNames|
    requires AllReadable(data, selectedColIdx)
    requires !exists i :: OnlyMetaAt(modelRows, i)
    ensures Predict(modelRows, trainColsOf, selectedColNames, data, selectedColIdx, resultRow) == Failure(InvalidModel)
  {
    SingleMeta(modelRows);
  }

  // ---------------------------------------------------------------------------------------
  // A worked instance: a model for one training column "c" with tokens "a" (index 0) and
  // "b" (index 1), and four records holding 0, 1, 7 and null in that column.

  const ExampleModel: seq<ModelRow> := [ModelRow(-1, "meta", 0), ModelRow(0, "a", 0), ModelRow(0, "b", 1)]
  const ExampleData: seq<Record> :=
    [Record(10, [Long(0)]), Record(11, [Long(1)]), Record(12, [Long(7)]), Record(13, [Null])]
  const ExampleEntries: seq<Entry> := [Entry(0, "a", 0), Entry(0, "b", 1)]

  /** The example model has exactly one meta text. */
  lemma ExampleMeta()
    ensures ModelMeta(ExampleModel) == ["meta"]
  {
    var rows := ExampleModel;
    assert rows[1..][1..] == [rows[2]];
    assert ModelMeta([rows[2]]) == [];
  }

  /** Column "c" is found at training position 0. */
  lemma ExampleColumns()
    ensures ColumnPositions(["c"], ["c"]) == Success([0])
  {
    var cols: seq<string> := ["c"];
    assert FindColIndex(cols, "c") == 0;
    var ps := ColumnPositions(cols, cols);
    assert cols[0] in cols;
    assert ps.Success? && ps.value[0] == 0;
    assert ps.value == [0];
  }

  /** The two token rows become the two entries at position 0; the keys are distinct. */
  lemma ExampleModelEntries()
    ensures ModelEntries(ExampleModel, [0]) == ExampleEntries
    ensures UniqueKeys(ExampleEntries)
  {
    var rows := ExampleModel;
    assert EntriesOf(rows[0], [0]) == [];
    assert EntriesOf(rows[1], [0]) == [ExampleEntries[0]];
    assert EntriesOf(rows[2], [0]) == [ExampleEntries[1]];
    assert rows[1..][1..] == [rows[2]];
    assert ModelEntries([rows[2]], [0]) == [ExampleEntries[1]];
  }

  /** 0 and 1 resolve to "a" and "b"; 7 and the null field resolve to "null". */
  lemma ExampleLabels()
    ensures Label(ExampleEntries, 0, 0) == "a"
    ensures Label(ExampleEntries, 0, 1) == "b"
    ensures Label(ExampleEntries, 0, 7) == UnmatchedToken
    ensures Label(ExampleEntries, 0, NullTokenIndex) == UnmatchedToken
  {
    assert ExampleEntries[1..][1..] == [];
  }

  /** The rows assembled for the example records. */
  lemma ExampleRows()
    ensures Readable(ExampleData[0].fields, [0]) && Readable(ExampleData[1].fields, [0])
    ensures Readable(ExampleData[2].fields, [0]) && Readable(ExampleData[3].fields, [0])
    ensures ExpectedRow(ExampleEntries, ExampleData[0], [0]) == [Str("a")]
    ensures ExpectedRow(ExampleEntries, ExampleData[1], [0]) == [Str("b")]
    ensures ExpectedRow(ExampleEntries, ExampleData[2], [0]) == [Str(UnmatchedToken)]
    ensures ExpectedRow(ExampleEntries, ExampleData[3], [0]) == [Str(UnmatchedToken)]
  {
    ExampleLabels();
    var d := ExampleData;
    assert d[0].fields[0] == Long(0) && d[1].fields[0] == Long(1);
    assert d[2].fields[0] == Long(7) && d[3].fields[0] == Null;
  }

  lemma ExampleReadable()
    ensures AllReadable(ExampleData, [0]) && UniqueIds(ExampleData)
  {
  }

  /** The expected outputs of the example records, with the assembled row passed through. */
  lemma ExampleOutputs()
    ensures AllReadable(ExampleData, [0]) && UniqueIds(ExampleData)
    ensures ExpectedOutputs(ExampleEntries, ExampleData, [0], (rec, row) => row)
         == [[Str("a")], [Str("b")], [Str(UnmatchedToken)], [Str(UnmatchedToken)]]
  {
    ExampleReadable();
    ExampleRows();
    var out := ExpectedOutputs(ExampleEntries, ExampleData, [0], (rec, row) => row);
    assert out[0] == [Str("a")];
    assert out[1] == [Str("b")];
    assert out[2] == [Str(UnmatchedToken)];
    assert out[3] == [Str(UnmatchedToken)];
  }

  /** End to end on the example: the four records come out as "a", "b", "null" and "null". */
  lemma PredictExample()
    ensures Predict(ExampleModel, _ => ["c"], ["c"], ExampleData, [0], (rec, row) => row)
         == Success([[Str("a")], [Str("b")], [Str(UnmatchedToken)], [Str(UnmatchedToken)]])
  {
    ExampleMeta();
    ExampleColumns();
    ExampleModelEntries();
    ExampleOutputs();
    PredictRecords(ExampleModel, _ => ["c"], ["c"], ExampleData, [0], (rec, row) => row, [0]);
  }
}
