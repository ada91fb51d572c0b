/**
 `Counter.most_common(n)`: Python implements it as `heapq.nlargest(n, items,
 key=count)`, which returns the same list as
 `sorted(items, key=count, reverse=True)[:n]` and `[]` when `n <= 0`. The
 sort is stable, so entries with equal counts keep the Counter's key order,
 which is the order of first occurrence in the counted sequence.
 */
module MostCommon {
  import opened Counter

  /** Counts never increase from left to right. */
  predicate NonIncreasing<T>(es: seq<Entry<T>>) {
    forall i, j :: 0 <= i < j < |es| ==> es[i].count >= es[j].count
  }

  /**
   Number of leading entries whose count is at least `m`; in a non-increasing
   list these are exactly the entries with count at least `m`.
   */
  function Boundary<T>(es: seq<Entry<T>>, m: int): (k: nat)
    requires NonIncreasing(es)
    ensures k <= |es|
    ensures forall i :: 0 <= i < k ==> es[i].count >= m
    ensures forall i :: k <= i < |es| ==> es[i].count < m
  {
    if |es| == 0 || es[|es| - 1].count >= m then |es|
    else Boundary(es[..|es| - 1], m)
  }

  /**
   Places `e` after every entry of the non-increasing list `s` whose count
   is at least its own, and before the rest.
   */
  function InsertByCount<T>(s: seq<Entry<T>>, e: Entry<T>): (r: seq<Entry<T>>)
    requires NonIncreasing(s)
    ensures |r| == |s| + 1
    ensures NonIncreasing(r)
    ensures multiset(r) == multiset(s) + multiset{e}
  {
    var k := Boundary(s, e.count);
    var r := s[..k] + [e] + s[k..];
    assert s == s[..k] + s[k..];
    forall i, j | 0 <= i < j < |r| ensures r[i].count >= r[j].count {
      if j < k {
        assert r[i] == s[i] && r[j] == s[j];
      } else if j == k {
        assert r[i] == s[i];
      } else if i < k {
        assert r[i] == s[i] && r[j] == s[j - 1];
      } else if i == k {
        assert r[j] == s[j - 1];
      } else {
        assert r[i] == s[i - 1] && r[j] == s[j - 1];
      }
    }
    r
  }

  /**
   Stable sort by descending count: each entry, taken in input order, is
   placed after every already-sorted entry whose count is at least its own.
   */
  function SortByCount<T>(es: seq<Entry<T>>): (r: seq<Entry<T>>)
    ensures |r| == |es|
    ensures NonIncreasing(r)
    ensures multiset(r) == multiset(es)
  {
    if |es| == 0 then []
    else
      var prefix := es[..|es| - 1];
      assert es == prefix + [es[|es| - 1]];
      InsertByCount(SortByCount(prefix), es[|es| - 1])
  }

  /** Length of `s[:n]` for a list of length `len`, with `[]` when `n <= 0`. */
  function Cut(n: int, len: nat): (k: nat)
    ensures k <= len
    ensures n <= 0 ==> k == 0
    ensures 0 < n < len ==> k == n
    ensures 0 < n && len <= n ==> k == len
  {
    if n <= 0 then 0 else if n < len then n else len
  }

  /**
   `heapq.nlargest(n, es, key=count)`: the `n` entries with the largest
   counts, largest first, ties in input order.
   */
  function NLargest<T>(es: seq<Entry<T>>, n: int): (r: seq<Entry<T>>)
    ensures |r| == Cut(n, |es|)
    ensures NonIncreasing(r)
    ensures multiset(r) <= multiset(es)
    ensures forall e, i :: e in multiset(es) - multiset(r) && 0 <= i < |r| ==> e.count <= r[i].count
  {
    var sorted := SortByCount(es);
    var k := Cut(n, |es|);
    PrefixDominatesRest(sorted, k);
    sorted[..k]
  }

  /** In a non-increasing list, every entry left out of a prefix counts no more than any kept one. */
  lemma PrefixDominatesRest<T>(sorted: seq<Entry<T>>, k: nat)
    requires NonIncreasing(sorted) && k <= |sorted|
    ensures multiset(sorted[..k]) <= multiset(sorted)
    ensures forall e, i :: e in multiset(sorted) - multiset(sorted[..k]) && 0 <= i < k ==>
              e.count <= sorted[..k][i].count
  {
    assert sorted == sorted[..k] + sorted[k..];
    forall e, i | e in multiset(sorted) - multiset(sorted[..k]) && 0 <= i < k
      ensures e.count <= sorted[..k][i].count
    {
      assert e in sorted[k..];
    }
  }

  /** `Counter.most_common(n)`. */
  function MostCommonOf<T(==)>(c: Counter<T>, n: int): seq<Entry<T>>
    requires Valid(c)
  {
    NLargest(Items(c), n)
  }

  /** The full ranking `Counter(xs).most_common()`, one entry per distinct value. */
  function Ranking<T(==)>(xs: seq<T>): seq<Entry<T>> {
    SortByCount(Items(Tally(xs)))
  }

  /** Every entry's key occurs in `xs` and its count is its number of occurrences. */
  ghost predicate Faithful<T>(xs: seq<T>, es: seq<Entry<T>>) {
    forall i :: 0 <= i < |es| ==> es[i].key in xs && es[i].count == Count(xs, es[i].key)
  }

  /** Keys are listed in strictly increasing order of first occurrence in `xs`. */
  ghost predicate InFirstOccurrenceOrder<T>(xs: seq<T>, es: seq<Entry<T>>)
    requires Faithful(xs, es)
  {
    forall i, j :: 0 <= i < j < |es| ==> FirstIndex(xs, es[i].key) < FirstIndex(xs, es[j].key)
  }

  /**
   `a` is ranked ahead of `b`: it occurs more often in `xs`, or as often and
   first occurs earlier.
   */
  ghost predicate RankedBefore<T>(xs: seq<T>, a: T, b: T)
    requires a in xs && b in xs
  {
    || Count(xs, a) > Count(xs, b)
    || (Count(xs, a) == Count(xs, b) && FirstIndex(xs, a) < FirstIndex(xs, b))
  }

  /** Every key is ranked strictly ahead of every later key. */
  ghost predicate StrictlyRanked<T>(xs: seq<T>, es: seq<Entry<T>>)
    requires Faithful(xs, es)
  {
    forall i, j :: 0 <= i < j < |es| ==> RankedBefore(xs, es[i].key, es[j].key)
  }

  /** Entries drawn from a faithful list are faithful. */
  lemma FaithfulSubMultiset<T>(xs: seq<T>, es: seq<Entry<T>>, r: seq<Entry<T>>)
    requires Faithful(xs, es)
    requires multiset(r) <= multiset(es)
    ensures Faithful(xs, r)
  {
    forall i | 0 <= i < |r| ensures r[i].key in xs && r[i].count == Count(xs, r[i].key) {
      assert r[i] in multiset(r);
      assert r[i] in multiset(es);
      var j :| 0 <= j < |es| && es[j] == r[i];
    }
  }

  /**
   Inserting an entry that first occurs after all of `s` into the strictly
   ranked list `s` keeps it strictly ranked.
   */
  lemma InsertByCountRanks<T>(xs: seq<T>, s: seq<Entry<T>>, e: Entry<T>)
    requires NonIncreasing(s) && Faithful(xs, s) && StrictlyRanked(xs, s)
    requires e.key in xs && e.count == Count(xs, e.key)
    requires forall i :: 0 <= i < |s| ==> FirstIndex(xs, s[i].key) < FirstIndex(xs, e.key)
    ensures Faithful(xs, InsertByCount(s, e))
    ensures StrictlyRanked(xs, InsertByCount(s, e))
  {
    var r := InsertByCount(s, e);
    forall i | 0 <= i < |r| ensures r[i].key in xs && r[i].count == Count(xs, r[i].key) {
      var i' := InsertedAt(s, e, i);
    }
    forall i, j | 0 <= i < j < |r| ensures RankedBefore(xs, r[i].key, r[j].key) {
      InsertedPairRanked(xs, s, e, i, j);
    }
  }

  /** One pair of positions of `InsertByCount(s, e)`, for `InsertByCountRanks`. */
  lemma InsertedPairRanked<T>(xs: seq<T>, s: seq<Entry<T>>, e: Entry<T>, i: nat, j: nat)
    requires NonIncreasing(s) && Faithful(xs, s) && StrictlyRanked(xs, s)
    requires e.key in xs && e.count == Count(xs, e.key)
    requires forall i :: 0 <= i < |s| ==> FirstIndex(xs, s[i].key) < FirstIndex(xs, e.key)
    requires i < j < |s| + 1
    ensures InsertByCount(s, e)[i].key in xs && InsertByCount(s, e)[j].key in xs
    ensures RankedBefore(xs, InsertByCount(s, e)[i].key, InsertByCount(s, e)[j].key)
  {
    var i', j' := InsertedPair(s, e, i, j);
    if i' >= 0 && j' >= 0 {
      assert RankedBefore(xs, s[i'].key, s[j'].key);
    } else if i' >= 0 {
      assert FirstIndex(xs, s[i'].key) < FirstIndex(xs, e.key);
    }
  }

  /**
   Where two positions `i < j` of `InsertByCount(s, e)` come from: an index
   into `s`, or `-1` for the inserted entry, which is never both.
   */
  lemma InsertedPair<T>(s: seq<Entry<T>>, e: Entry<T>, i: nat, j: nat) returns (i': int, j': int)
    requires NonIncreasing(s)
    requires i < j < |s| + 1
    ensures -1 <= i' < |s| && -1 <= j' < |s|
    ensures i' >= 0 ==> InsertByCount(s, e)[i] == s[i']
    ensures i' < 0 ==> InsertByCount(s, e)[i] == e
    ensures j' >= 0 ==> InsertByCount(s, e)[j] == s[j']
    ensures j' < 0 ==> InsertByCount(s, e)[j] == e
    ensures i' >= 0 && j' >= 0 ==> i' < j'
    ensures i' < 0 ==> j' >= 0 && s[j'].count < e.count
    ensures j' < 0 ==> i' >= 0 && s[i'].count >= e.count
  {
    var k := Boundary(s, e.count);
    InsertByCountAt(s, e);
    i' := if i < k then i else if i == k then -1 else i - 1;
    j' := if j < k then j else if j == k then -1 else j - 1;
  }

  /** Where position `i` of `InsertByCount(s, e)` comes from: an index into `s`, or `-1` for `e`. */
  lemma InsertedAt<T>(s: seq<Entry<T>>, e: Entry<T>, i: nat) returns (i': int)
    requires NonIncreasing(s)
    requires i < |s| + 1
    ensures -1 <= i' < |s|
    ensures i' >= 0 ==> InsertByCount(s, e)[i] == s[i']
    ensures i' < 0 ==> InsertByCount(s, e)[i] == e
  {
    var k := Boundary(s, e.count);
    InsertByCountAt(s, e);
    i' := if i < k then i else if i == k then -1 else i - 1;
  }

  /** Where `InsertByCount` puts each entry. */
  lemma InsertByCountAt<T>(s: seq<Entry<T>>, e: Entry<T>)
    requires NonIncreasing(s)
    ensures forall i :: 0 <= i < |s| + 1 ==>
              InsertByCount(s, e)[i] ==
                if i < Boundary(s, e.count) then s[i]
                else if i == Boundary(s, e.count) then e
                else s[i - 1]
  {
    var k := Boundary(s, e.count);
    assert InsertByCount(s, e) == s[..k] + [e] + s[k..];
  }

  /**
   Sorting faithful entries listed in first-occurrence order stably by
   descending count ranks them strictly: by count, then by first occurrence.
   */
  lemma {:induction false} SortByCountRanks<T>(xs: seq<T>, es: seq<Entry<T>>)
    requires Faithful(xs, es) && InFirstOccurrenceOrder(xs, es)
    ensures Faithful(xs, SortByCount(es))
    ensures StrictlyRanked(xs, SortByCount(es))
  {
    if |es| > 0 {
      var prefix := es[..|es| - 1];
      var e := es[|es| - 1];
      assert es == prefix + [e];
      SortByCountRanks(xs, prefix);
      var s := SortByCount(prefix);
      forall i | 0 <= i < |s| ensures FirstIndex(xs, s[i].key) < FirstIndex(xs, e.key) {
        assert s[i] in multiset(prefix);
        var j :| 0 <= j < |prefix| && prefix[j] == s[i];
        assert es[j] == s[i];
      }
      InsertByCountRanks(xs, s, e);
    }
  }

  /**
   `Counter(xs).most_common()` lists every distinct value of `xs` exactly
   once with its occurrence count, strictly ranked: higher counts first,
   equal counts in order of first occurrence.
   */
  lemma RankingSpec<T>(xs: seq<T>)
    ensures |Ranking(xs)| == |Distinct(xs)|
    ensures NonIncreasing(Ranking(xs))
    ensures Faithful(xs, Ranking(xs))
    ensures StrictlyRanked(xs, Ranking(xs))
    ensures forall v :: v in xs ==> v in Keys(Ranking(xs))
  {
    var items := Items(Tally(xs));
    ItemsOfTally(xs);
    SortByCountRanks(xs, items);
    RankingCoversInput(xs);
  }

  /** `Counter(xs).items()` pairs each key with its count, keys in first-occurrence order. */
  lemma ItemsOfTally<T>(xs: seq<T>)
    ensures Faithful(xs, Items(Tally(xs)))
    ensures InFirstOccurrenceOrder(xs, Items(Tally(xs)))
  {
    var c := Tally(xs);
    var items := Items(c);
    forall i | 0 <= i < |items| ensures items[i].key in xs && items[i].count == Count(xs, items[i].key) {
      assert items[i].key == c.order[i];
    }
    forall i, j | 0 <= i < j < |items|
      ensures FirstIndex(xs, items[i].key) < FirstIndex(xs, items[j].key)
    {
      assert items[i].key == c.order[i] && items[j].key == c.order[j];
    }
  }

  /** Every value of `xs` is a key of its ranking. */
  lemma RankingCoversInput<T>(xs: seq<T>)
    ensures forall v :: v in xs ==> v in Keys(Ranking(xs))
  {
    var c := Tally(xs);
    var items := Items(c);
    var r := Ranking(xs);
    forall v | v in xs ensures v in Keys(r) {
      assert v in c.counts;
      var i :| 0 <= i < |c.order| && c.order[i] == v;
      assert items[i] in multiset(r);
      var j :| 0 <= j < |r| && r[j] == items[i];
      assert Keys(r)[j] == v;
    }
  }
}
