# Label vocabulary of `DatasetTrainer.load_qb_data`

This project models the data preparation step of `DatasetTrainer.load_qb_data`
in `train_classifier.py`, written in Dafny. Given the training split of the
QANTA question dataset, the method does the following:

1. If `limit > 0`, it cuts the split to its first `limit` examples.
2. It checks that the requested label column exists. If it does not, it
   raises a `ValueError`.
3. It counts the values of that column with `collections.Counter`.
4. It keeps the `max_labels` most common values that occur at least
   `min_frequency` times. Equal counts are ordered by first occurrence.
5. It numbers the kept values `0 .. K-1` in that order.
6. It records `K` as `_num_categories`.
7. It is meant to give every example the number of its value, or `None` when
   the value was not kept (as written it raises `NameError`, see "Findings").

Modules, one per file, follow the pipeline:

- `Wrappers` (`wrappers.dfy`): `Option` and `Result`.
- `Counter` (`counter.dfy`): occurrence counts, first occurrences, and a
  Counter as an insertion-ordered dictionary (`Add`, `Tally`).
- `MostCommon` (`most_common.dfy`): `Counter.most_common(n)`. CPython computes
  it with `heapq.nlargest(n, items, key=count)`, which returns the same list as
  a stable descending sort cut to `n`, and `[]` when `n <= 0`. The model uses an
  insertion sort and a cut (`SortByCount`, `Cut`, `NLargest`). It proves the
  full ranking orders values by count and breaks ties by first occurrence
  (`RankingSpec`).
- `Vocabulary` (`vocabulary.dfy`): `labels_to_keep` (`LabelsToKeep`),
  `label_map` (`LabelMap`), `label_map.get` (`Lookup`), and the properties of
  the selected vocabulary.
- `Trainer` (`trainer.dfy`): the dataset as column names plus rows, the
  truncation (`Select`), the column check, and the whole method (`LoadQbData`).
  It also models `map_func` both as line 91 writes it and as evidently
  intended.
- `Scenarios` (`scenarios.dfy`): small worked examples derived from the
  general lemmas.

A dataset is `WellFormed` when every row has exactly the dataset's columns,
which is what a columnar Arrow table guarantees. `LoadQbData` and the lemmas
about it require this. As a result, the `desired_label in ex` guard of
`map_func` always holds once the column check has passed.

## Model

| member | source | states |
|---|---|---|
| Counter.Count | train_classifier.py:83 | the number of occurrences of a value is at most the length of the list, and is positive exactly when the value occurs |
| Counter.Tally | train_classifier.py:83 | `Counter(labels)` has exactly the values of `labels` as keys, maps each to its number of occurrences, and orders its keys by first occurrence |
| Counter.AddCounts | train_classifier.py:83 | counting one more element turns the counter of `xs` into the counter of `xs + [x]` |
| Counter.DistinctSpec | train_classifier.py:83 | the keys of `Counter(xs)` are the values of `xs`, each once, and there are no more keys than elements |
| MostCommon.SortByCount | train_classifier.py:84 | the sort behind `most_common` is a permutation of its input with non-increasing counts |
| MostCommon.NLargest | train_classifier.py:84 | `most_common(n)` has `min(n, len)` entries (none when `n <= 0`), taken from the items, with non-increasing counts; no entry left out counts more than an entry kept |
| MostCommon.SortByCountRanks | train_classifier.py:84 | a stable sort of entries in first-occurrence order ranks them strictly: higher count first, equal counts by earlier first occurrence |
| MostCommon.RankingSpec | train_classifier.py:83-84 | `Counter(xs).most_common()` lists every distinct value of `xs` once with its true count, strictly ranked |
| Vocabulary.FilterFrequentMembers | train_classifier.py:84 | the `count >= min_frequency` filter keeps an entry if and only if its count reaches the threshold |
| Vocabulary.FilterNonIncreasingIsPrefix | train_classifier.py:84 | on a list sorted by descending count, the frequent entries are a prefix |
| Vocabulary.ThresholdCommutesWithCut | train_classifier.py:84 | on a sorted list, cutting to `n` and then filtering equals filtering and then cutting to `n` |
| Vocabulary.KeptThresholdThenCut | train_classifier.py:84 | `labels_to_keep` is the first `max_labels` of all frequent values in ranked order |
| Vocabulary.KeptIsRankedPrefix | train_classifier.py:83-84 | `labels_to_keep` is a prefix of the full ranking of the label values |
| Vocabulary.KeptAreFrequent | train_classifier.py:84 | every kept value occurs in the labels at least `min_frequency` times |
| Vocabulary.KeptBounded | train_classifier.py:84 | at most `max_labels` values are kept (none when `max_labels <= 0`), and no more than there are distinct values |
| Vocabulary.KeptRanked | train_classifier.py:83-84 | kept values occur in the labels, are distinct, and are listed in strict rank order |
| Vocabulary.KeptComplete | train_classifier.py:84 | a frequent value that is not kept was crowded out: exactly `max_labels` values were kept (none if `max_labels <= 0`), each ranked ahead of it |
| Vocabulary.KeptWhenFewRankedAhead | train_classifier.py:84 | a frequent value with fewer than `max_labels` values ranked ahead of it is kept |
| Vocabulary.KeptExactWhenFewDistinct | train_classifier.py:84 | with at most `max_labels` distinct values, a value is kept if and only if it occurs at least `min_frequency` times |
| Vocabulary.KeptEmptyWhenThresholdUnmet | train_classifier.py:84 | when no value reaches `min_frequency`, nothing is kept |
| Vocabulary.LabelMap | train_classifier.py:87 | `label_map` has exactly the kept values as keys, and maps each to a position below `K` that holds it |
| Vocabulary.LabelMapIsDenseIndex | train_classifier.py:87 | for distinct kept values, `label_map` maps the value at position `i` to `i`, its values are exactly `0 .. K-1`, and it has `K` entries |
| Vocabulary.LookupSpec | train_classifier.py:91 | `label_map.get(v)` is `None` exactly when `v` was not kept, and `Some(i)` exactly when `v` is the `i`-th kept value |
| Trainer.Select | train_classifier.py:73-74 | with `limit > 0` the dataset becomes its first `min(limit, len)` examples; otherwise it is unchanged; the columns stay the same |
| Trainer.LoadQbData | train_classifier.py:73-97 | the load fails, with the missing column named, exactly when the column is absent; otherwise it returns one example per selected row, in order, with the row's fields |
| Trainer.LoadQbDataVocabulary | train_classifier.py:80-95 | a successful load builds `labels_to_keep` from the truncated column and `label_map` from `labels_to_keep`, and `_num_categories == len(labels_to_keep) == len(label_map)` |
| Trainer.LoadQbDataLabels | train_classifier.py:89-97 | after a load every example holds `Some(i)` exactly when its value was kept, with `i < _num_categories` and `labels_to_keep[i]` equal to the value, and `None` otherwise |
| Trainer.MapExampleSpec | train_classifier.py:89-92 | the corrected `map_func` keeps the example's fields and labels it with the index of its value among the kept values, or `None` when the value was not kept |
| Trainer.MapRowsAsWritten | train_classifier.py:89-97 | if mapping `map_func` as written succeeds, the rows are unchanged |
| Trainer.AsWrittenLabellingRaises | train_classifier.py:91 | as written, mapping any non-empty dataset that passed the column check raises `NameError` for `example` |
| Scenarios.SkewedLabels | train_classifier.py:83-87 | with labels `[a, a, a, b, b, c]`, `max_labels = 2` and `min_frequency = 2`, the vocabulary is `[a, b]` and `label_map` is `{a: 0, b: 1}`: `c` falls below the threshold |
| Scenarios.TiedLabels | train_classifier.py:84 | with labels `[a, a, b, b, c, c]`, `max_labels = 1` and `min_frequency = 1`, the vocabulary is `[a]`: the tie goes to the value seen first |
| Scenarios.MissingColumnFails | train_classifier.py:77-78 | asking for a column the dataset lacks fails with that column's name |
| Scenarios.AsWrittenRaisesOnOneExample | train_classifier.py:91 | as written, labelling a one-example dataset raises `NameError` |

## Left out

- Loading the data is left out: `load_dataset("qanta", ...)` (line 65) and the choice of the first training fold (line 70) are network and library I/O. The model starts from the split as a `Dataset`.
- `tokenize_data`, `load_and_train_model`, `accuracy` and the command-line entry point are left out. They are tokenizer, model-training and metric calls into `transformers` and `datasets`, which the model cannot see.
- `kUNK` and the `--ec` flag are never used by the modelled method.
- Only the effect of `Dataset.map` is modelled, as an in-order pass over the rows. Its caching, batching and its probing of the first example to infer the output schema are not modelled.
- Trainer.LoadQbData: on success, it returns the examples labelled by the corrected `map_func`, not the `NameError` that the code as written raises. The as-written behaviour is modelled separately; see "Findings".
- Trainer.LoadQbData: label values are assumed hashable. `Counter` at line 83, and `label_map.get` at line 91, raise `TypeError: unhashable type` on a list- or dict-valued label column. The model accepts any value type with equality, so it does not model that error, and `LoadQbData` fails only for a missing column.
- Trainer.LoadQbData: requires a `WellFormed` dataset. A columnar table cannot have a row that lacks a column. For that reason, the `desired_label in ex` guard has no failing case to model beyond returning `None`, which `MapExample` does.
- Trainer.MapExample: the new `label` field is a separate `labelIndex` component and does not replace a column. A dataset that already has a column named `label` is not modelled.
- Vocabulary.LabelsToKeep: the code never rejects an empty vocabulary (`K = 0`). The model follows the code, and `KeptEmptyWhenThresholdUnmet` shows when that happens.
- MostCommon.NLargest: models the result of `heapq.nlargest`, not its heap algorithm. Python slice semantics for negative `n` never arise, because `nlargest` returns `[]` for `n <= 0`.
- Values that Python treats as equal but that differ (such as `1`, `1.0` and `True`) share one `Counter` key, whose count is the sum of their occurrences, and one `label_map` entry. The model compares label values with Dafny equality and does not reproduce this merging.

## Findings

| source | as written | input that shows it | evidently intended | confidence | as-written member | corrected member |
|---|---|---|---|---|---|---|
| train_classifier.py:91 | `map_func` assigns `example['label'] = ...`, but `example` is bound nowhere, so Python raises `NameError` on the first example that passes the `desired_label in ex` guard. Every example passes, because line 77 already checked the column. | any non-empty split with the `category` column, e.g. one row `{"category": 7}` with `desired_label = "category"` | `ex['label'] = label_map.get(ex[desired_label])`, giving each example its vocabulary index or `None` | high (not executed) | Trainer.AsWrittenLabellingRaises | Trainer.LoadQbDataLabels |
