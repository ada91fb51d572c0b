/**
 Worked examples of the label vocabulary: the selection on small label
 columns, derived from the general lemmas rather than by evaluation.
 */
module Scenarios {
  import opened Wrappers
  import opened Counter
  import opened MostCommon
  import opened Vocabulary
  import opened Trainer

  /** Occurrence counts and first positions of `[a, a, b, b, c, c]`. */
  lemma CountsOfTied<T>(a: T, b: T, c: T, v: T)
    requires a != b && b != c && a != c
    ensures Count([a, a, b, b, c, c], v) == (if v == a || v == b || v == c then 2 else 0)
    ensures v in [a, a, b, b, c, c] && v != a ==> FirstIndex([a, a, b, b, c, c], a) < FirstIndex([a, a, b, b, c, c], v)
  {
    CountSnoc([], a, v);
    assert [] + [a] == [a];
    CountSnoc([a], a, v);
    assert [a] + [a] == [a, a];
    CountSnoc([a, a], b, v);
    assert [a, a] + [b] == [a, a, b];
    CountSnoc([a, a, b], b, v);
    assert [a, a, b] + [b] == [a, a, b, b];
    CountSnoc([a, a, b, b], c, v);
    assert [a, a, b, b] + [c] == [a, a, b, b, c];
    CountSnoc([a, a, b, b, c], c, v);
    assert [a, a, b, b, c] + [c] == [a, a, b, b, c, c];
    FirstIndexUnique([a, a, b, b, c, c], a, 0);
  }

  /**
   Labels `[a, a, b, b, c, c]` with `max_labels = 1`, `min_frequency = 1`
   give `{a: 0}`: all counts tie and `a` occurs first.
   */
  lemma TiedLabels<T>(a: T, b: T, c: T)
    requires a != b && b != c && a != c
    ensures LabelsToKeep([a, a, b, b, c, c], 1, 1) == [a]
  {
    forall v | v in [a, a, b, b, c, c]
      ensures Count([a, a, b, b, c, c], v) == 2
      ensures v != a ==> FirstIndex([a, a, b, b, c, c], a) < FirstIndex([a, a, b, b, c, c], v)
    {
      CountsOfTied(a, b, c, v);
    }
    TiedKept([a, a, b, b, c, c], a);
  }

  /** On a column whose values all tie, one slot goes to the value seen first. */
  lemma TiedKept<T>(xs: seq<T>, a: T)
    requires a in xs && forall v :: v in xs ==> Count(xs, v) == 2
    requires forall v :: v in xs && v != a ==> FirstIndex(xs, a) < FirstIndex(xs, v)
    ensures LabelsToKeep(xs, 1, 1) == [a]
  {
    assert forall w :: w in xs && RankedBefore(xs, w, a) ==> w in [];
    KeptWhenFewRankedAhead(xs, 1, 1, a, []);
    KeptBounded(xs, 1, 1);
    Singleton(LabelsToKeep(xs, 1, 1), a);
  }

  /** A list of at most one element holding `a` is `[a]`. */
  lemma Singleton<T>(s: seq<T>, a: T)
    requires a in s && |s| <= 1
    ensures s == [a]
  {
  }

  /** Occurrence counts of `[a, a, a, b, b, c]`. */
  lemma CountsOfSkewed<T>(a: T, b: T, c: T, v: T)
    requires a != b && b != c && a != c
    ensures Count([a, a, a, b, b, c], v) == (if v == a then 3 else if v == b then 2 else if v == c then 1 else 0)
  {
    CountSnoc([], a, v);
    assert [] + [a] == [a];
    CountSnoc([a], a, v);
    assert [a] + [a] == [a, a];
    CountSnoc([a, a], a, v);
    assert [a, a] + [a] == [a, a, a];
    CountSnoc([a, a, a], b, v);
    assert [a, a, a] + [b] == [a, a, a, b];
    CountSnoc([a, a, a, b], b, v);
    assert [a, a, a, b] + [b] == [a, a, a, b, b];
    CountSnoc([a, a, a, b, b], c, v);
    assert [a, a, a, b, b] + [c] == [a, a, a, b, b, c];
  }

  /**
   Labels `[a, a, a, b, b, c]` with `max_labels = 2`, `min_frequency = 2`
   give `{a: 0, b: 1}`: `c` occurs once, below the threshold.
   */
  lemma SkewedLabels<T>(a: T, b: T, c: T)
    requires a != b && b != c && a != c
    ensures LabelsToKeep([a, a, a, b, b, c], 2, 2) == [a, b]
    ensures LabelMap([a, b]) == map[a := 0, b := 1]
  {
    SkewedColumn(a, b, c);
    SkewedKept([a, a, a, b, b, c], a, b, c);
    LabelMapOfPair(a, b);
  }

  /** Two distinct kept values are numbered `0` and `1` in order. */
  lemma LabelMapOfPair<T>(a: T, b: T)
    requires a != b
    ensures LabelMap([a, b]) == map[a := 0, b := 1]
  {
    assert [a, b][..1] == [a];
    assert [a][..0] == [];
  }

  /** The facts about `[a, a, a, b, b, c]` that `SkewedKept` needs. */
  lemma SkewedColumn<T>(a: T, b: T, c: T)
    requires a != b && b != c && a != c
    ensures Count([a, a, a, b, b, c], a) == 3
    ensures Count([a, a, a, b, b, c], b) == 2
    ensures Count([a, a, a, b, b, c], c) == 1
    ensures forall v :: v in [a, a, a, b, b, c] ==> v == a || v == b || v == c
  {
    CountsOfSkewed(a, b, c, a);
    CountsOfSkewed(a, b, c, b);
    CountsOfSkewed(a, b, c, c);
  }

  /** The selection on any column with counts 3, 2 and 1, from the counts alone. */
  lemma SkewedKept<T>(xs: seq<T>, a: T, b: T, c: T)
    requires Count(xs, a) == 3 && Count(xs, b) == 2 && Count(xs, c) == 1
    requires forall v :: v in xs ==> v == a || v == b || v == c
    ensures LabelsToKeep(xs, 2, 2) == [a, b]
  {
    MostFrequentKept(xs, a, b, c);
    SecondKept(xs, a, b, c);
    var kept := LabelsToKeep(xs, 2, 2);
    KeptBounded(xs, 2, 2);
    KeptRanked(xs, 2, 2);
    RankedPair(kept, xs, a, b);
  }

  /** With counts 3, 2 and 1 and two slots, the value occurring three times is kept. */
  lemma MostFrequentKept<T>(xs: seq<T>, a: T, b: T, c: T)
    requires Count(xs, a) == 3 && Count(xs, b) == 2 && Count(xs, c) == 1
    requires forall v :: v in xs ==> v == a || v == b || v == c
    ensures a in LabelsToKeep(xs, 2, 2)
  {
    assert forall w :: w in xs && RankedBefore(xs, w, a) ==> w in [];
    KeptWhenFewRankedAhead(xs, 2, 2, a, []);
  }

  /** With counts 3, 2 and 1 and two slots, the value occurring twice is kept. */
  lemma SecondKept<T>(xs: seq<T>, a: T, b: T, c: T)
    requires Count(xs, a) == 3 && Count(xs, b) == 2 && Count(xs, c) == 1
    requires forall v :: v in xs ==> v == a || v == b || v == c
    ensures b in LabelsToKeep(xs, 2, 2)
  {
    assert forall w :: w in xs && RankedBefore(xs, w, b) ==> w in [a];
    KeptWhenFewRankedAhead(xs, 2, 2, b, [a]);
  }

  /** A strictly ranked list of at most two values holding `a` and `b`, with `a` ranked ahead, is `[a, b]`. */
  lemma RankedPair<T>(kept: seq<T>, xs: seq<T>, a: T, b: T)
    requires |kept| <= 2 && a in kept && b in kept
    requires forall v :: v in kept ==> v in xs
    requires forall i, j :: 0 <= i < j < |kept| ==> RankedBefore(xs, kept[i], kept[j])
    requires a in xs && b in xs && RankedBefore(xs, a, b)
    ensures kept == [a, b]
  {
  }

  /** Asking for a column the dataset lacks fails, naming the column. */
  lemma MissingColumnFails()
    ensures LoadQbData(Dataset(["text"], [map["text" := 7]]), "category", 5000, 3, -1)
         == Failure(ColumnNotFound("category"))
  {
  }

  /** As written, labelling a one-example dataset raises `NameError`. */
  lemma AsWrittenRaisesOnOneExample()
    ensures MapRowsAsWritten([map["category" := 7]], "category") == Failure(NameError("example"))
  {
  }
}
