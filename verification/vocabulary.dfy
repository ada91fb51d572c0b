/**
 The label vocabulary of `load_qb_data`: the `max_labels` most common raw
 label values, those occurring fewer than `min_frequency` times dropped, each
 given its position in that list as a dense class index.
 */
module Vocabulary {
  import opened Wrappers
  import opened Counter
  import opened MostCommon

  /** `[e for e in es if e.count >= minFrequency]`, order kept. */
  function FilterFrequent<T>(es: seq<Entry<T>>, minFrequency: int): (r: seq<Entry<T>>)
    ensures |r| <= |es|
  {
    if |es| == 0 then []
    else
      var prefix := es[..|es| - 1];
      var e := es[|es| - 1];
      assert es == prefix + [e];
      FilterFrequent(prefix, minFrequency) + (if e.count >= minFrequency then [e] else [])
  }

  /** The filter keeps exactly the entries whose count reaches the threshold. */
  lemma {:induction false} FilterFrequentMembers<T>(es: seq<Entry<T>>, minFrequency: int)
    ensures forall e :: e in FilterFrequent(es, minFrequency) <==> e in es && e.count >= minFrequency
  {
    if |es| > 0 {
      var prefix := es[..|es| - 1];
      assert es == prefix + [es[|es| - 1]];
      FilterFrequentMembers(prefix, minFrequency);
    }
  }

  /** In a non-increasing list the frequent entries form a prefix. */
  lemma {:induction false} FilterNonIncreasingIsPrefix<T>(es: seq<Entry<T>>, m: int)
    requires NonIncreasing(es)
    ensures FilterFrequent(es, m) == es[..Boundary(es, m)]
  {
    if |es| > 0 {
      var prefix := es[..|es| - 1];
      var e := es[|es| - 1];
      assert es == prefix + [e];
      assert NonIncreasing(prefix);
      FilterNonIncreasingIsPrefix(prefix, m);
      var k := Boundary(prefix, m);
      assert FilterFrequent(es, m) == FilterFrequent(prefix, m) + (if e.count >= m then [e] else []);
      if e.count >= m {
        forall i | 0 <= i < |prefix| ensures prefix[i].count >= m {
          assert es[i] == prefix[i];
        }
        assert k == |prefix|;
      } else {
        assert es[..k] == prefix[..k];
      }
    }
  }

  /**
   On a list sorted by descending count, cutting to the first `n` entries
   and then dropping entries below the threshold gives the same list as
   dropping first and cutting afterwards.
   */
  lemma ThresholdCommutesWithCut<T>(es: seq<Entry<T>>, n: int, m: int)
    requires NonIncreasing(es)
    ensures FilterFrequent(es[..Cut(n, |es|)], m)
         == FilterFrequent(es, m)[..Cut(n, |FilterFrequent(es, m)|)]
  {
    CutThenFilterIsPrefix(es, n, m);
    FilterNonIncreasingIsPrefix(es, m);
    var b := Boundary(es, m);
    assert es[..b][..Cut(n, b)] == es[..Cut(n, b)];
  }

  /** `labels_to_keep`: the kept values, most frequent first. */
  function LabelsToKeep<T(==)>(labels: seq<T>, maxLabels: int, minFrequency: int): seq<T> {
    Keys(FilterFrequent(MostCommonOf(Tally(labels), maxLabels), minFrequency))
  }

  /** How many ranked values survive both the cut and the threshold. */
  ghost function KeptLength<T>(labels: seq<T>, maxLabels: int, minFrequency: int): nat {
    var r := Ranking(labels);
    var cut := Cut(maxLabels, |r|);
    var b := Boundary(r, minFrequency);
    if cut < b then cut else b
  }

  /** On a non-increasing list, cut then threshold leaves a prefix. */
  lemma CutThenFilterIsPrefix<T>(es: seq<Entry<T>>, n: int, m: int)
    requires NonIncreasing(es)
    ensures var b := Boundary(es, m);
            FilterFrequent(es[..Cut(n, |es|)], m) == es[..if Cut(n, |es|) < b then Cut(n, |es|) else b]
  {
    var cut := es[..Cut(n, |es|)];
    FilterNonIncreasingIsPrefix(cut, m);
    var b := Boundary(es, m);
    var b' := Boundary(cut, m);
    if b' < |cut| {
      assert cut[b'] == es[b'];
    }
    if b < |cut| {
      assert cut[b] == es[b];
    }
    assert b' == (if |cut| < b then |cut| else b);
  }

  /** `Counter(labels).most_common(n)` is the first entries of the full ranking. */
  lemma MostCommonIsRankingPrefix<T>(labels: seq<T>, maxLabels: int)
    ensures MostCommonOf(Tally(labels), maxLabels) == Ranking(labels)[..Cut(maxLabels, |Ranking(labels)|)]
  {
  }

  /** The kept values are a prefix of the ranking of all distinct values. */
  lemma KeptIsRankedPrefix<T>(labels: seq<T>, maxLabels: int, minFrequency: int)
    ensures KeptLength(labels, maxLabels, minFrequency) <= |Ranking(labels)|
    ensures LabelsToKeep(labels, maxLabels, minFrequency)
         == Keys(Ranking(labels)[..KeptLength(labels, maxLabels, minFrequency)])
  {
    MostCommonIsRankingPrefix(labels, maxLabels);
    CutThenFilterIsPrefix(Ranking(labels), maxLabels, minFrequency);
  }

  /**
   `labels_to_keep` is the same whether the `max_labels` cut is taken before
   the `min_frequency` threshold (as the code does) or after it.
   */
  lemma KeptThresholdThenCut<T>(labels: seq<T>, maxLabels: int, minFrequency: int)
    ensures var frequent := FilterFrequent(Ranking(labels), minFrequency);
            LabelsToKeep(labels, maxLabels, minFrequency) == Keys(frequent[..Cut(maxLabels, |frequent|)])
  {
    var r := Ranking(labels);
    assert MostCommonOf(Tally(labels), maxLabels) == r[..Cut(maxLabels, |r|)];
    ThresholdCommutesWithCut(r, maxLabels, minFrequency);
  }

  /** Every kept value occurs in the input at least `minFrequency` times. */
  lemma KeptAreFrequent<T>(labels: seq<T>, maxLabels: int, minFrequency: int)
    ensures forall v :: v in LabelsToKeep(labels, maxLabels, minFrequency) ==>
              v in labels && Count(labels, v) >= minFrequency
  {
    var r := Ranking(labels);
    RankingSpec(labels);
    KeptIsRankedPrefix(labels, maxLabels, minFrequency);
    PrefixKeysFrequent(labels, r, KeptLength(labels, maxLabels, minFrequency), minFrequency);
  }

  /** Keys of a faithful prefix whose counts reach `m` occur in `xs` at least `m` times. */
  lemma PrefixKeysFrequent<T>(xs: seq<T>, r: seq<Entry<T>>, k: nat, m: int)
    requires Faithful(xs, r) && k <= |r|
    requires forall i :: 0 <= i < k ==> r[i].count >= m
    ensures forall v :: v in Keys(r[..k]) ==> v in xs && Count(xs, v) >= m
  {
    forall v | v in Keys(r[..k]) ensures v in xs && Count(xs, v) >= m {
      var i :| 0 <= i < k && Keys(r[..k])[i] == v;
      assert v == r[i].key;
    }
  }

  /** At most `maxLabels` values are kept, and none when `maxLabels <= 0`. */
  lemma KeptBounded<T>(labels: seq<T>, maxLabels: int, minFrequency: int)
    ensures |LabelsToKeep(labels, maxLabels, minFrequency)| <= (if maxLabels <= 0 then 0 else maxLabels)
    ensures |LabelsToKeep(labels, maxLabels, minFrequency)| <= |Distinct(labels)|
  {
    KeptIsRankedPrefix(labels, maxLabels, minFrequency);
    RankingSpec(labels);
  }

  /**
   The kept values are distinct values of the input, in strictly ranked
   order: non-increasing count, equal counts in first-occurrence order.
   */
  lemma KeptRanked<T>(labels: seq<T>, maxLabels: int, minFrequency: int)
    ensures forall v :: v in LabelsToKeep(labels, maxLabels, minFrequency) ==> v in labels
    ensures NoDup(LabelsToKeep(labels, maxLabels, minFrequency))
    ensures var kept := LabelsToKeep(labels, maxLabels, minFrequency);
            forall i, j :: 0 <= i < j < |kept| ==> RankedBefore(labels, kept[i], kept[j])
  {
    var kept := LabelsToKeep(labels, maxLabels, minFrequency);
    var r := Ranking(labels);
    KeptIsRankedPrefix(labels, maxLabels, minFrequency);
    RankingSpec(labels);
    forall i | 0 <= i < |kept| ensures kept[i] == r[i].key && kept[i] in labels {
    }
    forall i, j | 0 <= i < j < |kept| ensures RankedBefore(labels, kept[i], kept[j]) {
      assert RankedBefore(labels, r[i].key, r[j].key);
    }
  }

  /** A value of the input that reaches the threshold sits before the boundary of the ranking. */
  lemma FrequentRankedBeforeBoundary<T>(labels: seq<T>, minFrequency: int, v: T) returns (p: nat)
    requires v in labels && Count(labels, v) >= minFrequency
    ensures NonIncreasing(Ranking(labels))
    ensures p < Boundary(Ranking(labels), minFrequency)
    ensures Ranking(labels)[p].key == v
  {
    var r := Ranking(labels);
    RankingSpec(labels);
    p :| 0 <= p < |r| && Keys(r)[p] == v;
    assert r[p].count == Count(labels, v);
  }

  /**
   A frequent enough value that is not kept lost only to the cut: then
   `maxLabels` values were kept (none if `maxLabels <= 0`), each ranked
   ahead of it.
   */
  lemma KeptComplete<T>(labels: seq<T>, maxLabels: int, minFrequency: int, v: T)
    requires v in labels && Count(labels, v) >= minFrequency
    requires v !in LabelsToKeep(labels, maxLabels, minFrequency)
    ensures |LabelsToKeep(labels, maxLabels, minFrequency)| == (if maxLabels <= 0 then 0 else maxLabels)
    ensures forall w :: w in LabelsToKeep(labels, maxLabels, minFrequency) ==>
              w in labels && RankedBefore(labels, w, v)
  {
    var kept := LabelsToKeep(labels, maxLabels, minFrequency);
    var p := FrequentRankedBeforeBoundary(labels, minFrequency, v);
    KeptIsRankedPrefix(labels, maxLabels, minFrequency);
    var q := KeptLength(labels, maxLabels, minFrequency);
    if p < q {
      KeptHoldsRankedPrefix(labels, maxLabels, minFrequency, p);
    }
    assert q == Cut(maxLabels, |Ranking(labels)|);
    RankedAheadOf(labels, q, p);
  }

  /** Every key ranked within the kept length is kept. */
  lemma KeptHoldsRankedPrefix<T>(labels: seq<T>, maxLabels: int, minFrequency: int, p: nat)
    requires p < KeptLength(labels, maxLabels, minFrequency) <= |Ranking(labels)|
    ensures Ranking(labels)[p].key in LabelsToKeep(labels, maxLabels, minFrequency)
  {
    KeptIsRankedPrefix(labels, maxLabels, minFrequency);
    assert LabelsToKeep(labels, maxLabels, minFrequency)[p] == Ranking(labels)[p].key;
  }

  /** Keys ranked before position `p` are ranked ahead of the key at `p`. */
  lemma RankedAheadOf<T>(labels: seq<T>, q: nat, p: nat)
    requires q <= p < |Ranking(labels)|
    ensures forall w :: w in Keys(Ranking(labels)[..q]) ==>
              w in labels && Ranking(labels)[p].key in labels && RankedBefore(labels, w, Ranking(labels)[p].key)
  {
    var r := Ranking(labels);
    RankingSpec(labels);
    forall w | w in Keys(r[..q])
      ensures w in labels && r[p].key in labels && RankedBefore(labels, w, r[p].key)
    {
      var i :| 0 <= i < q && Keys(r[..q])[i] == w;
      assert w == r[i].key;
    }
  }

  /** Distinct values drawn from `b` are no more numerous than `b`. */
  lemma {:induction false} NoDupSubsetLength<T>(a: seq<T>, b: seq<T>)
    requires NoDup(a)
    requires forall x :: x in a ==> x in b
    ensures |a| <= |b|
  {
    if |a| > 0 {
      var x := a[|a| - 1];
      var prefix := a[..|a| - 1];
      assert a == prefix + [x];
      assert x in a;
      var i :| 0 <= i < |b| && b[i] == x;
      var rest := b[..i] + b[i + 1..];
      forall y | y in prefix ensures y in rest {
        var j :| 0 <= j < |prefix| && prefix[j] == y;
        assert a[j] == y && a[|a| - 1] == x;
        assert y != x;
        assert y in a;
        var k :| 0 <= k < |b| && b[k] == y;
        if k < i {
          assert rest[k] == y;
        } else {
          assert rest[k - 1] == y;
        }
      }
      NoDupSubsetLength(prefix, rest);
    }
  }

  /**
   A value reaching the threshold is kept exactly when fewer than
   `maxLabels` values are ranked ahead of it: here, when all values ranked
   ahead of it fit in a list shorter than `maxLabels`.
   */
  lemma KeptWhenFewRankedAhead<T>(
    labels: seq<T>, maxLabels: int, minFrequency: int, v: T, ahead: seq<T>)
    requires v in labels && Count(labels, v) >= minFrequency
    requires forall w :: w in labels && RankedBefore(labels, w, v) ==> w in ahead
    requires |ahead| < maxLabels
    ensures v in LabelsToKeep(labels, maxLabels, minFrequency)
  {
    var kept := LabelsToKeep(labels, maxLabels, minFrequency);
    if v !in kept {
      KeptComplete(labels, maxLabels, minFrequency, v);
      KeptRanked(labels, maxLabels, minFrequency);
      NoDupSubsetLength(kept, ahead);
      assert false;
    }
  }

  /**
   With at most `maxLabels` distinct values the cut removes nothing: exactly
   the values occurring at least `minFrequency` times are kept.
   */
  lemma KeptExactWhenFewDistinct<T>(labels: seq<T>, maxLabels: int, minFrequency: int)
    requires |Distinct(labels)| <= maxLabels
    ensures forall v :: v in LabelsToKeep(labels, maxLabels, minFrequency) <==>
              v in labels && Count(labels, v) >= minFrequency
  {
    KeptAreFrequent(labels, maxLabels, minFrequency);
    forall v | v in labels && Count(labels, v) >= minFrequency
      ensures v in LabelsToKeep(labels, maxLabels, minFrequency)
    {
      FrequentKeptWhenFewDistinct(labels, maxLabels, minFrequency, v);
    }
  }

  /** One value of `KeptExactWhenFewDistinct`: a frequent value is kept when the cut removes nothing. */
  lemma FrequentKeptWhenFewDistinct<T>(labels: seq<T>, maxLabels: int, minFrequency: int, v: T)
    requires |Distinct(labels)| <= maxLabels
    requires v in labels && Count(labels, v) >= minFrequency
    ensures v in LabelsToKeep(labels, maxLabels, minFrequency)
  {
    RankingSpec(labels);
    assert Cut(maxLabels, |Ranking(labels)|) == |Ranking(labels)|;
    var p := FrequentRankedBeforeBoundary(labels, minFrequency, v);
    KeptHoldsRankedPrefix(labels, maxLabels, minFrequency, p);
  }

  /** A threshold above every occurrence count leaves the vocabulary empty. */
  lemma KeptEmptyWhenThresholdUnmet<T>(labels: seq<T>, maxLabels: int, minFrequency: int)
    requires forall v :: v in labels ==> Count(labels, v) < minFrequency
    ensures LabelsToKeep(labels, maxLabels, minFrequency) == []
  {
    var r := Ranking(labels);
    RankingSpec(labels);
    KeptIsRankedPrefix(labels, maxLabels, minFrequency);
    if |r| > 0 {
      assert r[0].count < minFrequency;
    }
    assert Boundary(r, minFrequency) == 0;
  }

  /**
   `{label: idx for idx, label in enumerate(kept)}`: each kept value maps to
   a position holding it (the last one, as a later dict entry overwrites).
   */
  function LabelMap<T(==)>(kept: seq<T>): (m: map<T, nat>)
    ensures forall v :: v in kept ==> v in m
    ensures forall v :: v in m ==> v in kept
    ensures forall v :: v in m ==> m[v] < |kept| && kept[m[v]] == v
  {
    if |kept| == 0 then map[]
    else
      var prefix := kept[..|kept| - 1];
      assert kept == prefix + [kept[|kept| - 1]];
      LabelMap(prefix)[kept[|kept| - 1] := |prefix|]
  }

  /**
   For distinct kept values the label map is a bijection onto
   `0 .. |kept| - 1` sending each value to its position.
   */
  lemma LabelMapIsDenseIndex<T>(kept: seq<T>)
    requires NoDup(kept)
    ensures forall i :: 0 <= i < |kept| ==> LabelMap(kept)[kept[i]] == i
    ensures forall n: nat :: n in LabelMap(kept).Values <==> n < |kept|
    ensures |LabelMap(kept)| == |kept|
  {
    var m := LabelMap(kept);
    forall i | 0 <= i < |kept| ensures m[kept[i]] == i {
      assert kept[m[kept[i]]] == kept[i];
    }
    forall i: nat | i < |kept| ensures i in m.Values {
      assert m[kept[i]] == i;
    }
    LabelMapSize(kept);
  }

  /** Distinct kept values give a label map with one key per value. */
  lemma {:induction false} LabelMapSize<T>(kept: seq<T>)
    requires NoDup(kept)
    ensures |LabelMap(kept)| == |kept|
  {
    if |kept| > 0 {
      var prefix := kept[..|kept| - 1];
      var x := kept[|kept| - 1];
      assert kept == prefix + [x];
      assert NoDup(prefix);
      LabelMapSize(prefix);
      assert x !in prefix;
      assert x !in LabelMap(prefix);
    }
  }

  /** `label_map.get(value)`. */
  function Lookup<T(==)>(m: map<T, nat>, v: T): Option<nat> {
    if v in m then Some(m[v]) else None
  }

  /**
   Looking a value up in the label map of distinct kept values gives its
   position when it is kept and `None` otherwise.
   */
  lemma LookupSpec<T>(kept: seq<T>, v: T)
    requires NoDup(kept)
    ensures Lookup(LabelMap(kept), v).None? <==> v !in kept
    ensures forall i :: 0 <= i < |kept| ==> (Lookup(LabelMap(kept), v) == Some(i) <==> kept[i] == v)
  {
    LabelMapIsDenseIndex(kept);
  }
}
