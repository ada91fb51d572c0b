/**
 `DatasetTrainer.load_qb_data` once the dataset split is in hand: optional
 truncation to `limit` examples, the label-column check, construction of the
 label vocabulary and the per-example label lookup.
 */
module Trainer {
  import opened Wrappers
  import opened Counter
  import opened Vocabulary

  /** One example: column name to value. */
  type Row<V> = map<string, V>

  /** A dataset split: its column names and its examples in order. */
  datatype Dataset<V> = Dataset(columnNames: seq<string>, rows: seq<Row<V>>)

  /** Every example carries exactly the dataset's columns, as in a columnar table. */
  predicate WellFormed<V>(ds: Dataset<V>) {
    forall i :: 0 <= i < |ds.rows| ==>
      && (forall c :: c in ds.rows[i] ==> c in ds.columnNames)
      && (forall c :: c in ds.columnNames ==> c in ds.rows[i])
  }

  /** The errors `load_qb_data` can raise. */
  datatype LoadError =
    | ColumnNotFound(column: string)  // the `ValueError` for a missing label column
    | NameError(name: string)         // an unbound Python name

  /** An example with the integer label assigned to it, `None` when its value was not kept. */
  datatype Example<V> = Example(fields: Row<V>, labelIndex: Option<nat>)

  /** What `load_qb_data` leaves behind: the labelled examples, the vocabulary and `_num_categories`. */
  datatype Loaded<V> = Loaded(
    examples: seq<Example<V>>,
    labelsToKeep: seq<V>,
    labelMap: map<V, nat>,
    numCategories: nat)

  /**
   `dataset.select(range(min(limit, len(dataset))))` when `limit > 0`, the
   whole dataset otherwise: the first `min(limit, len)` examples.
   */
  function Select<V>(ds: Dataset<V>, limit: int): (r: Dataset<V>)
    ensures r.columnNames == ds.columnNames
    ensures |r.rows| <= |ds.rows| && r.rows == ds.rows[..|r.rows|]
    ensures limit > 0 ==> |r.rows| == if limit < |ds.rows| then limit else |ds.rows|
    ensures limit <= 0 ==> r == ds
    ensures WellFormed(ds) ==> WellFormed(r)
  {
    if limit > 0 then
      Dataset(ds.columnNames, ds.rows[..if limit < |ds.rows| then limit else |ds.rows|])
    else ds
  }

  /** `dataset[column]`: the column's value in every example, in order. */
  function LabelColumn<V>(ds: Dataset<V>, column: string): (labels: seq<V>)
    requires WellFormed(ds) && column in ds.columnNames
    ensures |labels| == |ds.rows|
    ensures forall i :: 0 <= i < |ds.rows| ==> labels[i] == ds.rows[i][column]
  {
    seq(|ds.rows|, i requires 0 <= i < |ds.rows| && column in ds.rows[i] => ds.rows[i][column])
  }

  /**
   `map_func` with its evident intent, `ex['label'] = label_map.get(ex[desired_label])`
   under the guard `desired_label in ex`. Line 91 assigns into the unbound
   name `example` instead; `MapFuncAsWritten` models that. An example that
   fails the guard (never, in a well-formed dataset) gets no label.
   */
  function MapExample<V(==)>(row: Row<V>, desiredLabel: string, labelMap: map<V, nat>): Example<V> {
    Example(row, if desiredLabel in row then Lookup(labelMap, row[desiredLabel]) else None)
  }

  /** `dataset.map(map_func)`: every example mapped, in order. */
  function MapRows<V(==)>(rows: seq<Row<V>>, desiredLabel: string, labelMap: map<V, nat>): (exs: seq<Example<V>>)
    ensures |exs| == |rows|
    ensures forall i :: 0 <= i < |rows| ==> exs[i] == MapExample(rows[i], desiredLabel, labelMap)
  {
    seq(|rows|, i requires 0 <= i < |rows| => MapExample(rows[i], desiredLabel, labelMap))
  }

  /**
   With distinct kept values, the mapped example keeps its fields and gets
   the position of its raw value among the kept values, or `None` exactly
   when that value was not kept.
   */
  lemma MapExampleSpec<V>(row: Row<V>, desiredLabel: string, kept: seq<V>)
    requires NoDup(kept)
    requires desiredLabel in row
    ensures MapExample(row, desiredLabel, LabelMap(kept)).fields == row
    ensures MapExample(row, desiredLabel, LabelMap(kept)).labelIndex.Some? <==> row[desiredLabel] in kept
    ensures var idx := MapExample(row, desiredLabel, LabelMap(kept)).labelIndex;
            idx.Some? ==> idx.value < |kept| && kept[idx.value] == row[desiredLabel]
  {
    LookupSpec(kept, row[desiredLabel]);
  }

  /**
   The body of `load_qb_data` after loading: truncate, check the label
   column, build the vocabulary, then label every example.
   */
  function LoadQbData<V(==)>(
    ds: Dataset<V>, desiredLabel: string, maxLabels: int, minFrequency: int, limit: int
  ): (r: Result<Loaded<V>, LoadError>)
    requires WellFormed(ds)
    ensures r.Failure? <==> desiredLabel !in ds.columnNames
    ensures r.Failure? ==> r.error == ColumnNotFound(desiredLabel)
    ensures r.Success? ==> |r.value.examples| == |Select(ds, limit).rows|
    ensures r.Success? ==> forall i :: 0 <= i < |r.value.examples| ==>
              r.value.examples[i].fields == Select(ds, limit).rows[i]
  {
    var selected := Select(ds, limit);
    if desiredLabel !in selected.columnNames then
      Failure(ColumnNotFound(desiredLabel))
    else
      var labels := LabelColumn(selected, desiredLabel);
      var kept := LabelsToKeep(labels, maxLabels, minFrequency);
      var labelMap := LabelMap(kept);
      Success(Loaded(MapRows(selected.rows, desiredLabel, labelMap), kept, labelMap, |kept|))
  }

  /**
   A successful load builds its vocabulary from the label column of the
   truncated dataset, and `_num_categories` equals both the number of kept
   values and the size of the label map.
   */
  lemma LoadQbDataVocabulary<V>(
    ds: Dataset<V>, desiredLabel: string, maxLabels: int, minFrequency: int, limit: int)
    requires WellFormed(ds) && desiredLabel in ds.columnNames
    ensures var r := LoadQbData(ds, desiredLabel, maxLabels, minFrequency, limit);
            && r.Success?
            && r.value.labelsToKeep
               == LabelsToKeep(LabelColumn(Select(ds, limit), desiredLabel), maxLabels, minFrequency)
            && r.value.labelMap == LabelMap(r.value.labelsToKeep)
            && r.value.numCategories == |r.value.labelsToKeep| == |r.value.labelMap|
  {
    var labels := LabelColumn(Select(ds, limit), desiredLabel);
    KeptRanked(labels, maxLabels, minFrequency);
    LabelMapIsDenseIndex(LabelsToKeep(labels, maxLabels, minFrequency));
  }

  /**
   After a successful load every example holds `Some(i)` with
   `i < _num_categories` and `labels_to_keep[i]` its raw value when that value
   was kept, and `None` when it was not.
   */
  lemma LoadQbDataLabels<V>(
    ds: Dataset<V>, desiredLabel: string, maxLabels: int, minFrequency: int, limit: int)
    requires WellFormed(ds) && desiredLabel in ds.columnNames
    ensures var r := LoadQbData(ds, desiredLabel, maxLabels, minFrequency, limit);
            && r.Success?
            && forall i :: 0 <= i < |r.value.examples| ==>
                 var ex := r.value.examples[i];
                 && desiredLabel in ex.fields
                 && (ex.labelIndex.Some? <==> ex.fields[desiredLabel] in r.value.labelsToKeep)
                 && (ex.labelIndex.Some? ==>
                       && ex.labelIndex.value < r.value.numCategories
                       && r.value.labelsToKeep[ex.labelIndex.value] == ex.fields[desiredLabel])
  {
    var selected := Select(ds, limit);
    var labels := LabelColumn(selected, desiredLabel);
    var kept := LabelsToKeep(labels, maxLabels, minFrequency);
    var r := LoadQbData(ds, desiredLabel, maxLabels, minFrequency, limit);
    KeptRanked(labels, maxLabels, minFrequency);
    forall i | 0 <= i < |r.value.examples|
      ensures var ex := r.value.examples[i];
              && desiredLabel in ex.fields
              && (ex.labelIndex.Some? <==> ex.fields[desiredLabel] in kept)
              && (ex.labelIndex.Some? ==> ex.labelIndex.value < |kept| && kept[ex.labelIndex.value] == ex.fields[desiredLabel])
    {
      assert r.value.examples[i] == MapExample(selected.rows[i], desiredLabel, LabelMap(kept));
      MapExampleSpec(selected.rows[i], desiredLabel, kept);
    }
  }

  /**
   `map_func` as line 91 writes it: under the guard it assigns into
   `example`, a name bound nowhere, so Python raises `NameError`.
   */
  function MapFuncAsWritten<V>(row: Row<V>, desiredLabel: string): Result<Row<V>, LoadError> {
    if desiredLabel in row then Failure(NameError("example")) else Success(row)
  }

  /** `dataset.map(map_func)` as written: every row in order, stopping at the first error. */
  function MapRowsAsWritten<V>(rows: seq<Row<V>>, desiredLabel: string): (r: Result<seq<Row<V>>, LoadError>)
    ensures r.Success? ==> r.value == rows
  {
    if |rows| == 0 then Success([])
    else
      match MapFuncAsWritten(rows[0], desiredLabel)
      case Failure(e) => Failure(e)
      case Success(row) =>
        match MapRowsAsWritten(rows[1..], desiredLabel)
        case Failure(e) => Failure(e)
        case Success(rest) => Success([row] + rest)
  }

  /**
   As written, labelling raises `NameError` on every non-empty dataset that
   passed the column check: the check guarantees the guard of `map_func`.
   */
  lemma AsWrittenLabellingRaises<V>(ds: Dataset<V>, desiredLabel: string, limit: int)
    requires WellFormed(ds) && desiredLabel in ds.columnNames
    requires |Select(ds, limit).rows| > 0
    ensures MapRowsAsWritten(Select(ds, limit).rows, desiredLabel) == Failure(NameError("example"))
  {
    assert desiredLabel in Select(ds, limit).rows[0];
  }
}
