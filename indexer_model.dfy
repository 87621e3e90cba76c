/**
 * Reading a fitted multi-column string indexer model. The model is a set of rows
 * (columnIndex, text, tokenIndex): the one meta row has a negative column index and carries
 * the training parameters as text; every other row maps a token of training column
 * `columnIndex` to its token index. `getModelMeta` isolates the meta text; `getModelData`
 * re-labels the token rows with the prediction-time position of their column.
 */
module IndexerModel {
  import opened Wrappers

  /** A model row with its three fields at their Java types (Long, String, Long). */
  datatype ModelRow = ModelRow(columnIndex: int, text: string, tokenIndex: int)

  /** `Tuple3<Integer, String, Long>`: prediction-time position, token, token index. */
  datatype Entry = Entry(position: int, token: string, tokenIndex: int)

  /** The exceptions thrown while the model is read. */
  datatype ModelError =
    | InvalidModel                     // not exactly one meta text
    | ColumnNotInModel(name: string)   // a requested column the model was not trained on

  predicate IsMeta(row: ModelRow)
  {
    row.columnIndex < 0
  }

  // ---------------------------------------------------------------------------------------
  // getModelMeta

  /** The flatMap of `getModelMeta`: the text of a meta row, nothing for any other row. */
  function MetaOf(row: ModelRow): (metas: seq<string>)
    ensures |metas| <= 1
    ensures metas != [] <==> IsMeta(row)
    ensures metas != [] ==> metas[0] == row.text
  {
    if IsMeta(row) then [row.text] else []
  }

  /** `getModelMeta`: the flatMap applied to every model row. */
  function ModelMeta(rows: seq<ModelRow>): (metas: seq<string>)
    ensures |metas| <= |rows|
  {
    if rows == [] then [] else MetaOf(rows[0]) + ModelMeta(rows[1..])
  }

  /** A text is emitted exactly when some meta row carries it. */
  lemma {:induction false} ModelMetaMembers(rows: seq<ModelRow>, s: string)
    ensures s in ModelMeta(rows) <==> exists i :: 0 <= i < |rows| && IsMeta(rows[i]) && rows[i].text == s
  {
    if rows != [] {
      ModelMetaMembers(rows[1..], s);
      if s in ModelMeta(rows[1..]) {
        var i :| 0 <= i < |rows[1..]| && IsMeta(rows[1..][i]) && rows[1..][i].text == s;
        assert IsMeta(rows[i + 1]) && rows[i + 1].text == s;
      }
      if exists i :: 0 <= i < |rows| && IsMeta(rows[i]) && rows[i].text == s {
        var i :| 0 <= i < |rows| && IsMeta(rows[i]) && rows[i].text == s;
        if i > 0 {
          assert IsMeta(rows[1..][i - 1]) && rows[1..][i - 1].text == s;
        }
      }
    }
  }

  /** The model set is partitioned arbitrarily: extraction works partition by partition. */
  lemma {:induction false} ModelMetaConcat(a: seq<ModelRow>, b: seq<ModelRow>)
    ensures ModelMeta(a + b) == ModelMeta(a) + ModelMeta(b)
  {
    if a != [] {
      assert (a + b)[1..] == a[1..] + b;
      ModelMetaConcat(a[1..], b);
    } else {
      assert a + b == b;
    }
  }

  /** The positions of the meta rows. */
  function MetaIndices(rows: seq<ModelRow>): set<int>
  {
    set i | 0 <= i < |rows| && IsMeta(rows[i])
  }

  /** Meta extraction emits exactly one text per meta row. */
  lemma {:induction false} ModelMetaCount(rows: seq<ModelRow>)
    ensures |ModelMeta(rows)| == |MetaIndices(rows)|
    decreases |rows|
  {
    if rows != [] {
      var n := |rows| - 1;
      var init := rows[..n];
      ModelMetaCount(init);
      assert rows == init + [rows[n]];
      ModelMetaConcat(init, [rows[n]]);
      assert ModelMeta([rows[n]]) == MetaOf(rows[n]);
      assert n !in MetaIndices(init);
      if IsMeta(rows[n]) {
        assert MetaIndices(rows) == MetaIndices(init) + {n};
      } else {
        assert MetaIndices(rows) == MetaIndices(init);
      }
    }
  }

  /** The model set is unordered: reordering its rows only reorders the emitted texts. */
  lemma {:induction false} ModelMetaPermutation(a: seq<ModelRow>, b: seq<ModelRow>)
    requires multiset(a) == multiset(b)
    ensures multiset(ModelMeta(a)) == multiset(ModelMeta(b))
    decreases |a|
  {
    if a == [] {
      assert |b| == |multiset(b)| == 0;
    } else {
      var j := MatchFirst(a, b);
      ModelMetaPermutation(a[1..], b[..j] + b[j + 1..]);
      ModelMetaWithout(b, j);
      var mx, ma := MetaOf(a[0]), ModelMeta(a[1..]);
      assert ModelMeta(a) == mx + ma;
      assert multiset(mx + ma) == multiset(mx) + multiset(ma);
    }
  }

  /** The first element of `a` sits at some `j` in its permutation `b`; the rests are permutations too. */
  lemma MatchFirst<T>(a: seq<T>, b: seq<T>) returns (j: int)
    requires multiset(a) == multiset(b) && a != []
    ensures 0 <= j < |b| && b[j] == a[0]
    ensures multiset(a[1..]) == multiset(b[..j] + b[j + 1..])
  {
    var x := a[0];
    assert x in multiset(b) by {
      assert x in multiset(a);
    }
    assert x in b;
    j :| 0 <= j < |b| && b[j] == x;
    WithoutOne(b, j);
    assert a == [x] + a[1..];
    assert multiset(a) == multiset{x} + multiset(a[1..]);
  }

  /** Taking element `j` out of a sequence takes one copy of it out of its multiset. */
  lemma WithoutOne<T>(b: seq<T>, j: int)
    requires 0 <= j < |b|
    ensures multiset(b[..j] + b[j + 1..]) == multiset(b) - multiset{b[j]}
  {
    assert b == b[..j] + [b[j]] + b[j + 1..];
    assert multiset(b) == multiset(b[..j]) + multiset{b[j]} + multiset(b[j + 1..]);
  }

  /** The texts emitted for `b` are those of row `j` together with those of the other rows. */
  lemma ModelMetaWithout(b: seq<ModelRow>, j: int)
    requires 0 <= j < |b|
    ensures multiset(ModelMeta(b)) == multiset(MetaOf(b[j])) + multiset(ModelMeta(b[..j] + b[j + 1..]))
  {
    var b1, b2 := b[..j], b[j + 1..];
    assert b == b1 + ([b[j]] + b2);
    ModelMetaConcat(b1, [b[j]] + b2);
    ModelMetaConcat([b[j]], b2);
    ModelMetaConcat(b1, b2);
    assert ModelMeta([b[j]]) == MetaOf(b[j]);
    var m1, mx, m2 := ModelMeta(b1), MetaOf(b[j]), ModelMeta(b2);
    assert ModelMeta(b) == m1 + (mx + m2);
    assert multiset(m1 + (mx + m2)) == multiset(m1) + multiset(mx) + multiset(m2);
    assert multiset(m1 + m2) == multiset(m1) + multiset(m2);
  }

  /** Row `i` is the model's one and only meta row. */
  predicate OnlyMetaAt(rows: seq<ModelRow>, i: int)
  {
    0 <= i < |rows| && IsMeta(rows[i]) &&
    forall j :: 0 <= j < |rows| && j != i ==> !IsMeta(rows[j])
  }

  /** Exactly one meta text is produced exactly when the model has exactly one meta row. */
  lemma {:induction false} SingleMeta(rows: seq<ModelRow>)
    ensures |ModelMeta(rows)| == 1 <==> exists i :: OnlyMetaAt(rows, i)
  {
    if rows != [] {
      var tail := rows[1..];
      SingleMeta(tail);
      if IsMeta(rows[0]) {
        if |ModelMeta(rows)| == 1 {
          assert ModelMeta(tail) == [];
          forall j | 0 < j < |rows| ensures !IsMeta(rows[j]) {
            ModelMetaMembers(tail, rows[j].text);
            assert tail[j - 1] == rows[j];
          }
          assert OnlyMetaAt(rows, 0);
        }
        if exists i :: OnlyMetaAt(rows, i) {
          var i :| OnlyMetaAt(rows, i);
          assert i == 0;
          if ModelMeta(tail) != [] {
            ModelMetaMembers(tail, ModelMeta(tail)[0]);
            assert false;
          }
        }
      } else {
        assert ModelMeta(rows) == ModelMeta(tail);
        if exists i :: OnlyMetaAt(tail, i) {
          var i :| OnlyMetaAt(tail, i);
          forall j | 0 <= j < |rows| && j != i + 1 ensures !IsMeta(rows[j]) {
            if j > 0 { assert rows[j] == tail[j - 1]; }
          }
          assert OnlyMetaAt(rows, i + 1);
        }
        if exists i :: OnlyMetaAt(rows, i) {
          var i :| OnlyMetaAt(rows, i);
          assert i > 0;
          forall j | 0 <= j < |tail| && j != i - 1 ensures !IsMeta(tail[j]) {
            assert tail[j] == rows[j + 1];
          }
          assert OnlyMetaAt(tail, i - 1);
        }
      }
    }
  }

  // ---------------------------------------------------------------------------------------
  // getModelData.open: locate each requested column among the training columns

  /**
   * The column-lookup helper: a position of `name` in `names`, or a negative number when
   * `name` is absent. Callers rely on nothing more (in particular not on which of several
   * equal names is chosen).
   */
  function FindColIndex(names: seq<string>, name: string): (r: int)
    ensures r >= -1
    ensures r < 0 <==> name !in names
    ensures r >= 0 ==> r < |names| && names[r] == name
  {
    if names == [] then -1
    else if names[0] == name then 0
    else
      var r := FindColIndex(names[1..], name);
      if r < 0 then -1 else r + 1
  }

  /**
   * The training position of every requested column, in request order; the first requested
   * column that is not a training column is the error.
   */
  function ColumnPositions(trainCols: seq<string>, selectedCols: seq<string>): (r: Result<seq<int>, ModelError>)
    ensures r.Success? <==> forall i :: 0 <= i < |selectedCols| ==> selectedCols[i] in trainCols
    ensures r.Success? ==>
              |r.value| == |selectedCols| &&
              (forall i :: 0 <= i < |selectedCols| ==> r.value[i] == FindColIndex(trainCols, selectedCols[i])) &&
              (forall i :: 0 <= i < |selectedCols| ==>
                 0 <= r.value[i] < |trainCols| && trainCols[r.value[i]] == selectedCols[i]) &&
              (forall i, j :: 0 <= i < |selectedCols| && 0 <= j < |selectedCols| && selectedCols[i] == selectedCols[j] ==>
                 r.value[i] == r.value[j])
    ensures r.Failure? ==>
              exists j :: 0 <= j < |selectedCols| && selectedCols[j] !in trainCols &&
                r.error == ColumnNotInModel(selectedCols[j]) &&
                forall i :: 0 <= i < j ==> selectedCols[i] in trainCols
    decreases |selectedCols|
  {
    if selectedCols == [] then Success([])
    else
      var last := |selectedCols| - 1;
      match ColumnPositions(trainCols, selectedCols[..last])
      case Failure(e) => Failure(e)
      case Success(ps) =>
        var p := FindColIndex(trainCols, selectedCols[last]);
        if p < 0 then Failure(ColumnNotInModel(selectedCols[last]))
        else Success(ps + [p])
  }

  // ---------------------------------------------------------------------------------------
  // getModelData.flatMap: keep the token rows of requested columns, re-labelled

  /** `Long.intValue()`: the low 32 bits of a long, read as a signed int. */
  function IntValue(x: int): (r: int)
    ensures -0x8000_0000 <= r < 0x8000_0000
    ensures (x - r) % 0x1_0000_0000 == 0
    ensures -0x8000_0000 <= x < 0x8000_0000 ==> r == x
  {
    var m := x % 0x1_0000_0000;
    if m >= 0x8000_0000 then m - 0x1_0000_0000 else m
  }

  /** The first position of `x` in `s`, if any. */
  function FirstIndexOf(s: seq<int>, x: int): (r: Option<nat>)
    ensures r.None? <==> x !in s
    ensures r.Some? ==> r.value < |s| && s[r.value] == x && forall j :: 0 <= j < r.value ==> s[j] != x
  {
    if s == [] then None
    else if s[0] == x then Some(0)
    else match FirstIndexOf(s[1..], x)
      case None => None
      case Some(i) => Some(i + 1)
  }

  /**
   * The flatMap of `getModelData` for one row, given the training positions of the
   * requested columns. A token row of a requested column is kept once, re-labelled with the
   * first requested position of its column; its token and token index are unchanged.
   */
  function EntriesOf(row: ModelRow, colIdxInModel: seq<int>): (out: seq<Entry>)
    ensures |out| <= 1
    ensures out == [] <==> IsMeta(row) || IntValue(row.columnIndex) !in colIdxInModel
    ensures out != [] ==>
              out[0].token == row.text && out[0].tokenIndex == row.tokenIndex &&
              0 <= out[0].position < |colIdxInModel| &&
              colIdxInModel[out[0].position] == IntValue(row.columnIndex) &&
              forall j :: 0 <= j < out[0].position ==> colIdxInModel[j] != IntValue(row.columnIndex)
  {
    if IsMeta(row) then []
    else match FirstIndexOf(colIdxInModel, IntValue(row.columnIndex))
      case None => []
      case Some(i) => [Entry(i, row.text, row.tokenIndex)]
  }

  /**
   * Column indices are compared after `intValue()`: a token row whose column index lies
   * 2^32 above a requested training position is taken for that position.
   */
  lemma ColumnIndexWraps(row: ModelRow, colIdxInModel: seq<int>)
    requires 0 <= row.columnIndex < 0x8000_0000
    ensures EntriesOf(ModelRow(row.columnIndex + 0x1_0000_0000, row.text, row.tokenIndex), colIdxInModel)
         == EntriesOf(row, colIdxInModel)
  {
    assert IntValue(row.columnIndex + 0x1_0000_0000) == row.columnIndex;
  }

  /** `getModelData`: the flatMap applied to every model row. */
  function ModelEntries(rows: seq<ModelRow>, colIdxInModel: seq<int>): (entries: seq<Entry>)
    ensures |entries| <= |rows|
    ensures forall e :: e in entries ==> 0 <= e.position < |colIdxInModel|
  {
    if rows == [] then [] else EntriesOf(rows[0], colIdxInModel) + ModelEntries(rows[1..], colIdxInModel)
  }

  /** Every entry comes from one token row of the model, re-labelled by `EntriesOf`. */
  lemma {:induction false} ModelEntriesOrigin(rows: seq<ModelRow>, colIdxInModel: seq<int>, e: Entry)
    requires e in ModelEntries(rows, colIdxInModel)
    ensures exists i :: 0 <= i < |rows| && EntriesOf(rows[i], colIdxInModel) == [e]
  {
    if e in EntriesOf(rows[0], colIdxInModel) {
      assert EntriesOf(rows[0], colIdxInModel) == [e];
    } else {
      ModelEntriesOrigin(rows[1..], colIdxInModel, e);
      var i :| 0 <= i < |rows[1..]| && EntriesOf(rows[1..][i], colIdxInModel) == [e];
      assert rows[i + 1] == rows[1..][i];
    }
  }

  /** Every token row of a requested column yields an entry. */
  lemma {:induction false} ModelEntriesComplete(rows: seq<ModelRow>, colIdxInModel: seq<int>, i: int)
    requires 0 <= i < |rows| && !IsMeta(rows[i]) && IntValue(rows[i].columnIndex) in colIdxInModel
    ensures EntriesOf(rows[i], colIdxInModel)[0] in ModelEntries(rows, colIdxInModel)
  {
    if i > 0 {
      assert rows[1..][i - 1] == rows[i];
      ModelEntriesComplete(rows[1..], colIdxInModel, i - 1);
    }
  }

  /**
   * A column requested twice gets its entries only at its first position: no entry is ever
   * labelled with a later position whose training column also appears earlier.
   */
  lemma RepeatedColumnHasNoEntries(rows: seq<ModelRow>, colIdxInModel: seq<int>, q: int, p: int)
    requires 0 <= q < p < |colIdxInModel| && colIdxInModel[q] == colIdxInModel[p]
    ensures forall e :: e in ModelEntries(rows, colIdxInModel) ==> e.position != p
  {
    forall e | e in ModelEntries(rows, colIdxInModel) ensures e.position != p {
      ModelEntriesOrigin(rows, colIdxInModel, e);
    }
  }

  /**
   * The object behind `getModelData`: `open` fills `selectedColIdxInModel` from the
   * broadcast meta, and `flatMap` reads it for every model row.
   */
  class ModelDataMapper {
    const selectedCols: seq<string>
    var selectedColIdxInModel: array?<int>

    constructor (selectedCols: seq<string>)
      ensures this.selectedCols == selectedCols
      ensures selectedColIdxInModel == null
    {
      this.selectedCols := selectedCols;
      selectedColIdxInModel := null;
    }

    /**
     * `open`: `metaList` is the broadcast output of `getModelMeta`, and `trainColsOf`
     * decodes a meta text into the training column names. Fails unless there is exactly one
     * meta text and every requested column is a training column.
     */
    method Open(metaList: seq<string>, trainColsOf: string -> seq<string>) returns (outcome: Outcome<ModelError>)
      modifies this
      ensures |metaList| != 1 ==> outcome == Fail(InvalidModel) && selectedColIdxInModel == old(selectedColIdxInModel)
      // On a missing column the array is left allocated and partly filled, as the Java leaves it.
      ensures |metaList| == 1 ==>
                selectedColIdxInModel != null && fresh(selectedColIdxInModel) &&
                selectedColIdxInModel.Length == |selectedCols|
      ensures |metaList| == 1 ==>
                match ColumnPositions(trainColsOf(metaList[0]), selectedCols)
                case Success(ps) =>
                  outcome == Pass && selectedColIdxInModel != null && fresh(selectedColIdxInModel) &&
                  selectedColIdxInModel[..] == ps
                case Failure(e) => outcome == Fail(e)
    {
      if |metaList| != 1 {
        return Fail(InvalidModel);
      }
      var trainColNames := trainColsOf(metaList[0]);
      var idx := new int[|selectedCols|];
      selectedColIdxInModel := idx;
      for i := 0 to |selectedCols|
        invariant selectedColIdxInModel == idx
        invariant ColumnPositions(trainColNames, selectedCols[..i]) == Success(idx[..i])
      {
        ColumnPositionsStep(trainColNames, selectedCols, i, idx[..i]);
        var colIdxInModel := FindColIndex(trainColNames, selectedCols[i]);
        if colIdxInModel < 0 {
          ColumnPositionsPrefixFailure(trainColNames, selectedCols, i + 1);
          return Fail(ColumnNotInModel(selectedCols[i]));
        }
        idx[i] := colIdxInModel;
        assert idx[..i + 1] == idx[..i] + [colIdxInModel];
      }
      assert selectedCols[..|selectedCols|] == selectedCols;
      assert idx[..|selectedCols|] == idx[..];
      return Pass;
    }

    /** `flatMap` for one model row, against the positions that `open` filled in. */
    method FlatMap(row: ModelRow) returns (out: seq<Entry>)
      requires selectedColIdxInModel != null
      ensures out == EntriesOf(row, selectedColIdxInModel[..])
    {
      out := [];
      var columnIndex := row.columnIndex;
      if columnIndex >= 0 {
        var colIdx := IntValue(row.columnIndex);
        var i := 0;
        while i < selectedColIdxInModel.Length
          invariant 0 <= i <= selectedColIdxInModel.Length
          invariant out == []
          invariant forall j :: 0 <= j < i ==> selectedColIdxInModel[j] != colIdx
        {
          if selectedColIdxInModel[i] == colIdx {
            out := [Entry(i, row.text, row.tokenIndex)];
            assert FirstIndexOf(selectedColIdxInModel[..], colIdx) == Some(i);
            break;
          }
          i := i + 1;
        }
      }
    }
  }

  /** Resolving one more requested column extends the positions found so far, or fails on it. */
  lemma ColumnPositionsStep(trainCols: seq<string>, selectedCols: seq<string>, i: nat, ps: seq<int>)
    requires i < |selectedCols|
    requires ColumnPositions(trainCols, selectedCols[..i]) == Success(ps)
    ensures var p := FindColIndex(trainCols, selectedCols[i]);
            ColumnPositions(trainCols, selectedCols[..i + 1]) ==
              if p < 0 then Failure(ColumnNotInModel(selectedCols[i])) else Success(ps + [p])
  {
    assert selectedCols[..i + 1][..i] == selectedCols[..i];
  }

  /** Once a prefix of the requested columns fails, the whole request fails the same way. */
  lemma {:induction false} ColumnPositionsPrefixFailure(trainCols: seq<string>, selectedCols: seq<string>, n: nat)
    requires n <= |selectedCols|
    requires ColumnPositions(trainCols, selectedCols[..n]).Failure?
    ensures ColumnPositions(trainCols, selectedCols) == ColumnPositions(trainCols, selectedCols[..n])
    decreases |selectedCols| - n
  {
    if n < |selectedCols| {
      assert selectedCols[..n + 1][..n] == selectedCols[..n];
      ColumnPositionsPrefixFailure(trainCols, selectedCols, n + 1);
    } else {
      assert selectedCols[..n] == selectedCols;
    }
  }
}
