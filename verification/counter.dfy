/**
 Occurrence counting over a label column, in the manner of Python's
 `collections.Counter`: a dictionary from each distinct value to its number of
 occurrences, whose keys keep the order in which they were first inserted.
 */
module Counter {

  /** Number of occurrences of `v` in `xs`. */
  function Count<T(==)>(xs: seq<T>, v: T): (n: nat)
    ensures n <= |xs|
    ensures n > 0 <==> v in xs
  {
    if |xs| == 0 then 0
    else
      var prefix := xs[..|xs| - 1];
      assert xs == prefix + [xs[|xs| - 1]];
      Count(prefix, v) + (if xs[|xs| - 1] == v then 1 else 0)
  }

  /** Appending `x` adds one occurrence of `x` and none of any other value. */
  lemma CountSnoc<T>(xs: seq<T>, x: T, v: T)
    ensures Count(xs + [x], v) == Count(xs, v) + (if x == v then 1 else 0)
  {
    assert (xs + [x])[..|xs|] == xs;
  }

  /** Position of the first occurrence of `v` in `xs`. */
  function FirstIndex<T(==)>(xs: seq<T>, v: T): (k: nat)
    requires v in xs
    ensures k < |xs| && xs[k] == v
    ensures v !in xs[..k]
  {
    if xs[0] == v then 0
    else
      var k' := FirstIndex(xs[1..], v);
      assert xs[..1 + k'] == [xs[0]] + xs[1..][..k'];
      1 + k'
  }

  /** A position holding `v` with no earlier `v` is the first index of `v`. */
  lemma FirstIndexUnique<T>(xs: seq<T>, v: T, k: nat)
    requires k < |xs| && xs[k] == v && v !in xs[..k]
    ensures FirstIndex(xs, v) == k
  {
  }

  /** Appending an element leaves first indices of earlier values alone. */
  lemma FirstIndexAppend<T>(xs: seq<T>, x: T)
    ensures forall v :: v in xs ==> FirstIndex(xs + [x], v) == FirstIndex(xs, v)
    ensures x !in xs ==> FirstIndex(xs + [x], x) == |xs|
  {
    forall v | v in xs
      ensures FirstIndex(xs + [x], v) == FirstIndex(xs, v)
    {
      var k := FirstIndex(xs, v);
      assert (xs + [x])[..k] == xs[..k];
      FirstIndexUnique(xs + [x], v, k);
    }
    if x !in xs {
      assert (xs + [x])[..|xs|] == xs;
      FirstIndexUnique(xs + [x], x, |xs|);
    }
  }

  /** No value occurs twice. */
  predicate NoDup<T(==)>(s: seq<T>) {
    forall i, j :: 0 <= i < j < |s| ==> s[i] != s[j]
  }

  /** Python's `Counter`: counts per key, keys listed in insertion order. */
  datatype Counter<T> = Counter(order: seq<T>, counts: map<T, nat>)

  /** The keys listed in `order` are exactly the keys of `counts`. */
  predicate Valid<T(==)>(c: Counter<T>) {
    && (forall k :: k in c.order ==> k in c.counts)
    && (forall k :: k in c.counts ==> k in c.order)
  }

  /** `c[x] += 1`; a key seen for the first time goes to the end of the order. */
  function Add<T(==)>(c: Counter<T>, x: T): (c': Counter<T>)
    requires Valid(c)
    ensures Valid(c')
    ensures x in c'.counts && forall k :: k in c.counts ==> k in c'.counts
    ensures forall k :: k in c'.counts ==> k in c.counts || k == x
    ensures c'.counts[x] == (if x in c.counts then c.counts[x] else 0) + 1
    ensures forall k :: k in c.counts && k != x ==> c'.counts[k] == c.counts[k]
  {
    if x in c.counts then Counter(c.order, c.counts[x := c.counts[x] + 1])
    else Counter(c.order + [x], c.counts[x := 1])
  }

  /** The facts that make `c` the counter of `xs`. */
  ghost predicate Counts<T>(c: Counter<T>, xs: seq<T>) {
    && Valid(c)
    && (forall v :: v in xs ==> v in c.counts)
    && (forall v :: v in c.counts ==> v in xs)
    && (forall v :: v in c.counts ==> c.counts[v] == Count(xs, v))
    && (forall i, j :: 0 <= i < j < |c.order| ==>
          FirstIndex(xs, c.order[i]) < FirstIndex(xs, c.order[j]))
  }

  /** Adding `x` to the counter of `xs` gives the counter of `xs + [x]`. */
  lemma AddCounts<T>(c: Counter<T>, xs: seq<T>, x: T)
    requires Counts(c, xs)
    ensures Counts(Add(c, x), xs + [x])
  {
    AddKeepsCounts(c, xs, x);
    AddKeepsOrder(c, xs, x);
  }

  /** After `Add(c, x)` every count is the number of occurrences in `xs + [x]`. */
  lemma AddKeepsCounts<T>(c: Counter<T>, xs: seq<T>, x: T)
    requires Valid(c)
    requires forall v :: v in xs ==> v in c.counts
    requires forall v :: v in c.counts ==> c.counts[v] == Count(xs, v)
    ensures forall v :: v in Add(c, x).counts ==> Add(c, x).counts[v] == Count(xs + [x], v)
  {
    var c' := Add(c, x);
    forall v | v in c'.counts ensures c'.counts[v] == Count(xs + [x], v) {
      CountSnoc(xs, x, v);
    }
  }

  /** `Add(c, x)` keeps the keys of `c` in order of first occurrence in `xs + [x]`. */
  lemma AddKeepsOrder<T>(c: Counter<T>, xs: seq<T>, x: T)
    requires Valid(c)
    requires forall v :: v in xs ==> v in c.counts
    requires forall v :: v in c.counts ==> v in xs
    requires forall i, j :: 0 <= i < j < |c.order| ==> FirstIndex(xs, c.order[i]) < FirstIndex(xs, c.order[j])
    ensures forall v :: v in Add(c, x).order ==> v in xs + [x]
    ensures forall i, j :: 0 <= i < j < |Add(c, x).order| ==>
              FirstIndex(xs + [x], Add(c, x).order[i]) < FirstIndex(xs + [x], Add(c, x).order[j])
  {
    var ys := xs + [x];
    var c' := Add(c, x);
    FirstIndexAppend(xs, x);
    forall v | v in c'.order ensures v in ys {
      assert v in c'.counts;
    }
    forall i, j | 0 <= i < j < |c'.order|
      ensures FirstIndex(ys, c'.order[i]) < FirstIndex(ys, c'.order[j])
    {
      assert c'.order[i] == c.order[i];
      assert c.order[i] in c.counts;
      if x !in c.counts && j == |c.order| {
        assert FirstIndex(xs, c.order[i]) < |xs|;
      } else {
        assert c'.order[j] == c.order[j];
        assert c.order[j] in c.counts;
      }
    }
  }

  /**
   `Counter(xs)`: one left-to-right pass of `Add`. Its keys are the distinct
   values of `xs` in order of first occurrence, each mapped to its count.
   */
  function Tally<T(==)>(xs: seq<T>): (c: Counter<T>)
    ensures Valid(c)
    ensures forall v :: v in xs ==> v in c.counts
    ensures forall v :: v in c.counts ==> v in xs
    ensures forall v :: v in c.counts ==> c.counts[v] == Count(xs, v)
    ensures forall i, j :: 0 <= i < j < |c.order| ==>
              FirstIndex(xs, c.order[i]) < FirstIndex(xs, c.order[j])
  {
    if |xs| == 0 then Counter([], map[])
    else
      var prefix := xs[..|xs| - 1];
      var x := xs[|xs| - 1];
      assert xs == prefix + [x];
      var c := Tally(prefix);
      AddCounts(c, prefix, x);
      Add(c, x)
  }

  /** The distinct values of `xs` in order of first occurrence. */
  function Distinct<T(==)>(xs: seq<T>): seq<T> {
    Tally(xs).order
  }

  /** One `(key, count)` pair of `Counter.items()`. */
  datatype Entry<T> = Entry(key: T, count: nat)

  /** `Counter.items()`, in key order. */
  function Items<T(==)>(c: Counter<T>): (es: seq<Entry<T>>)
    requires Valid(c)
    ensures |es| == |c.order|
    ensures forall i :: 0 <= i < |es| ==> es[i] == Entry(c.order[i], c.counts[c.order[i]])
  {
    seq(|c.order|, i requires 0 <= i < |c.order| => Entry(c.order[i], c.counts[c.order[i]]))
  }

  /** The keys of a list of entries, in the same order. */
  function Keys<T>(es: seq<Entry<T>>): (ks: seq<T>)
    ensures |ks| == |es|
    ensures forall i :: 0 <= i < |es| ==> ks[i] == es[i].key
  {
    seq(|es|, i requires 0 <= i < |es| => es[i].key)
  }

  /** Every distinct value of `xs` appears once in the key order of `Counter(xs)`. */
  lemma DistinctSpec<T>(xs: seq<T>)
    ensures forall v :: v in xs ==> v in Distinct(xs)
    ensures forall v :: v in Distinct(xs) ==> v in xs
    ensures NoDup(Distinct(xs))
    ensures |Distinct(xs)| <= |xs|
  {
    var d := Distinct(xs);
    forall i, j | 0 <= i < j < |d| ensures d[i] != d[j] {
      assert FirstIndex(xs, d[i]) < FirstIndex(xs, d[j]);
    }
    DistinctLength(xs);
  }

  lemma {:induction false} DistinctLength<T>(xs: seq<T>)
    ensures |Tally(xs).order| <= |xs|
  {
    if |xs| > 0 {
      DistinctLength(xs[..|xs| - 1]);
    }
  }
}
