/** The post-processing of a k-means clustering in `extract_colors`
    (src/chromalist/image_processing.py): the centroids are truncated to integer RGB triples and
    reordered so that the colour of the most populated cluster comes first.

    A clustering is the codebook (`centroids`) and the cluster id `vq` assigns to every pixel
    (`codes`). `np.unique(codes, return_counts=True)` gives the ids that occur, ascending, and
    how many pixels each has; `np.argsort(-counts)` orders positions of that list by descending
    count. */
module ColourFrequency {
  import opened Models

  /** A k-means cluster centre: three float components. */
  datatype Centroid = Centroid(r: real, g: real, b: real)

  /** `int(x)` on a float: truncation toward zero. */
  function Trunc(x: real): (n: int)
    ensures x >= 0.0 ==> n >= 0 && n as real <= x < n as real + 1.0
    ensures x < 0.0 ==> n <= 0 && n as real - 1.0 < x <= n as real
  {
    if x >= 0.0 then x.Floor else -((-x).Floor)
  }

  /** `tuple(map(int, centroid))`. */
  function ToRgb(c: Centroid): Rgb {
    Rgb(Trunc(c.r), Trunc(c.g), Trunc(c.b))
  }

  function ToRgbs(cs: seq<Centroid>): (r: seq<Rgb>)
    ensures |r| == |cs|
  {
    seq(|cs|, i requires 0 <= i < |cs| => ToRgb(cs[i]))
  }

  predicate InByteRange(x: real) {
    0.0 <= x <= 255.0
  }

  predicate IsByte(n: int) {
    0 <= n <= 255
  }

  /** A centroid is a mean of pixels whose channels lie in 0..255, so it converts to a colour
      whose channels lie in 0..255. */
  lemma ToRgbInByteRange(c: Centroid)
    requires InByteRange(c.r) && InByteRange(c.g) && InByteRange(c.b)
    ensures IsByte(ToRgb(c).r) && IsByte(ToRgb(c).g) && IsByte(ToRgb(c).b)
  {
  }

  /** Number of pixels assigned to cluster `v`. */
  function Count(codes: seq<nat>, v: nat): nat {
    multiset(codes)[v]
  }

  /** One more than the largest cluster id that occurs (0 for no pixels). */
  function Bound(codes: seq<nat>): (b: nat)
    ensures forall i :: 0 <= i < |codes| ==> codes[i] < b
    ensures b == 0 || b - 1 in codes
  {
    if codes == [] then 0
    else
      var rest := Bound(codes[1..]);
      assert forall i :: 1 <= i < |codes| ==> codes[i] == codes[1..][i - 1];
      if codes[0] + 1 >= rest then codes[0] + 1 else rest
  }

  /** The ids below `n` that occur in `codes`, ascending. */
  function UniqueBelow(codes: seq<nat>, n: nat): (u: seq<nat>)
    ensures |u| <= n
    ensures forall j :: 0 <= j < |u| ==> u[j] < n
  {
    if n == 0 then [] else UniqueBelow(codes, n - 1) + (if n - 1 in codes then [n - 1] else [])
  }

  lemma {:induction false} UniqueBelowProperties(codes: seq<nat>, n: nat)
    ensures forall j :: 0 <= j < |UniqueBelow(codes, n)| ==> UniqueBelow(codes, n)[j] in codes
    ensures forall v: nat :: v < n && v in codes ==> v in UniqueBelow(codes, n)
    ensures forall j, j' :: 0 <= j < j' < |UniqueBelow(codes, n)| ==> UniqueBelow(codes, n)[j] < UniqueBelow(codes, n)[j']
  {
    if n > 0 {
      UniqueBelowProperties(codes, n - 1);
    }
  }

  /** `np.unique(codes)`. */
  function Unique(codes: seq<nat>): (u: seq<nat>)
    ensures |u| <= Bound(codes)
    ensures forall j :: 0 <= j < |u| ==> u[j] < Bound(codes)
  {
    UniqueBelow(codes, Bound(codes))
  }

  /** `np.unique` returns each id that occurs, once, in ascending order. */
  lemma UniqueProperties(codes: seq<nat>)
    ensures forall j :: 0 <= j < |Unique(codes)| ==> Unique(codes)[j] in codes
    ensures forall v: nat :: v in codes ==> v in Unique(codes)
    ensures forall j, j' :: 0 <= j < j' < |Unique(codes)| ==> Unique(codes)[j] < Unique(codes)[j']
  {
    UniqueBelowProperties(codes, Bound(codes));
  }

  /** The `counts` of `np.unique(codes, return_counts=True)`. */
  function Counts(codes: seq<nat>): (c: seq<nat>)
    ensures |c| == |Unique(codes)|
  {
    var u := Unique(codes);
    seq(|u|, j requires 0 <= j < |u| => Count(codes, u[j]))
  }

  /** Each count is the population of the corresponding id, and is at least one. */
  lemma CountsProperties(codes: seq<nat>)
    ensures forall j :: 0 <= j < |Counts(codes)| ==> Counts(codes)[j] == Count(codes, Unique(codes)[j]) >= 1
  {
    UniqueProperties(codes);
  }

  /** All entries of `order` are positions below `n`. */
  predicate Indices(order: seq<nat>, n: nat) {
    forall m :: 0 <= m < |order| ==> order[m] < n
  }

  /** `order` lists positions of `counts` by non-increasing count. */
  predicate ByCountDesc(order: seq<nat>, counts: seq<nat>)
    requires Indices(order, |counts|)
  {
    forall m, m' :: 0 <= m < m' < |order| ==> counts[order[m]] >= counts[order[m']]
  }

  /** The positions `0, 1, ..., n - 1`. */
  function Range(n: nat): (r: seq<nat>)
    ensures |r| == n && Indices(r, n)
  {
    seq(n, i requires 0 <= i < n => i)
  }

  /** Inserts position `i` before the first position whose count does not exceed its own. */
  function InsertByCount(i: nat, order: seq<nat>, counts: seq<nat>): (r: seq<nat>)
    requires i < |counts| && Indices(order, |counts|)
    ensures |r| == |order| + 1 && Indices(r, |counts|)
  {
    if order == [] || counts[i] >= counts[order[0]] then [i] + order
    else [order[0]] + InsertByCount(i, order[1..], counts)
  }

  function SortByCount(idx: seq<nat>, counts: seq<nat>): (r: seq<nat>)
    requires Indices(idx, |counts|)
    ensures |r| == |idx| && Indices(r, |counts|)
  {
    if idx == [] then [] else InsertByCount(idx[0], SortByCount(idx[1..], counts), counts)
  }

  /** `np.argsort(-counts)`, breaking ties by position. */
  function ArgsortDesc(counts: seq<nat>): (order: seq<nat>)
    ensures |order| == |counts| && Indices(order, |counts|)
  {
    SortByCount(Range(|counts|), counts)
  }

  lemma {:induction false} InsertByCountPermutes(i: nat, order: seq<nat>, counts: seq<nat>)
    requires i < |counts| && Indices(order, |counts|)
    ensures multiset(InsertByCount(i, order, counts)) == multiset(order) + multiset{i}
  {
    if order != [] && counts[i] < counts[order[0]] {
      InsertByCountPermutes(i, order[1..], counts);
      assert order == [order[0]] + order[1..];
    }
  }

  lemma {:induction false} InsertByCountSorted(i: nat, order: seq<nat>, counts: seq<nat>)
    requires i < |counts| && Indices(order, |counts|) && ByCountDesc(order, counts)
    ensures ByCountDesc(InsertByCount(i, order, counts), counts)
  {
    if order != [] && counts[i] < counts[order[0]] {
      InsertByCountSorted(i, order[1..], counts);
      InsertByCountPermutes(i, order[1..], counts);
      var rest := InsertByCount(i, order[1..], counts);
      forall j | 0 <= j < |rest| ensures counts[order[0]] >= counts[rest[j]] {
        assert rest[j] in multiset(order[1..]) + multiset{i};
        if rest[j] != i {
          var m :| 0 <= m < |order[1..]| && order[1..][m] == rest[j];
          assert order[m + 1] == rest[j];
        }
      }
    }
  }

  lemma {:induction false} SortByCountPermutes(idx: seq<nat>, counts: seq<nat>)
    requires Indices(idx, |counts|)
    ensures multiset(SortByCount(idx, counts)) == multiset(idx)
  {
    if idx != [] {
      SortByCountPermutes(idx[1..], counts);
      InsertByCountPermutes(idx[0], SortByCount(idx[1..], counts), counts);
      assert idx == [idx[0]] + idx[1..];
    }
  }

  lemma {:induction false} SortByCountSorted(idx: seq<nat>, counts: seq<nat>)
    requires Indices(idx, |counts|)
    ensures ByCountDesc(SortByCount(idx, counts), counts)
  {
    if idx != [] {
      SortByCountSorted(idx[1..], counts);
      InsertByCountSorted(idx[0], SortByCount(idx[1..], counts), counts);
    }
  }

  /** The argsort is a permutation of the positions, ordered by non-increasing count. */
  lemma ArgsortDescOrders(counts: seq<nat>)
    ensures multiset(ArgsortDesc(counts)) == multiset(Range(|counts|))
    ensures ByCountDesc(ArgsortDesc(counts), counts)
  {
    SortByCountPermutes(Range(|counts|), counts);
    SortByCountSorted(Range(|counts|), counts);
  }

  /** `[rgbs[i] for i in idx]`. */
  function Select(rgbs: seq<Rgb>, idx: seq<nat>): (r: seq<Rgb>)
    requires Indices(idx, |rgbs|)
    ensures |r| == |idx|
  {
    if idx == [] then [] else [rgbs[idx[0]]] + Select(rgbs, idx[1..])
  }

  lemma {:induction false} SelectAt(rgbs: seq<Rgb>, idx: seq<nat>)
    requires Indices(idx, |rgbs|)
    ensures forall m :: 0 <= m < |idx| ==> Select(rgbs, idx)[m] == rgbs[idx[m]]
  {
    if idx != [] {
      SelectAt(rgbs, idx[1..]);
    }
  }

  /** The colour selection as written: positions of `np.unique(codes)`, ordered by count, are
      used directly as indices into the centroid colours. */
  function FrequencyOrderAsWritten(rgbs: seq<Rgb>, codes: seq<nat>): (r: seq<Rgb>)
    requires Indices(codes, |rgbs|)
    ensures |r| == |Unique(codes)| <= |rgbs|
    ensures forall m :: 0 <= m < |r| ==> exists j :: 0 <= j < |rgbs| && r[m] == rgbs[j]
  {
    var order := ArgsortDesc(Counts(codes));
    assert Bound(codes) <= |rgbs|;
    SelectAt(rgbs, order);
    Select(rgbs, order)
  }

  /** The cluster ids that occur, most populated first: `unique[sorted_indices]`. */
  function DominanceOrder(codes: seq<nat>): (d: seq<nat>)
    ensures |d| == |Unique(codes)|
    ensures forall m :: 0 <= m < |d| ==> d[m] < Bound(codes)
  {
    var u := Unique(codes);
    var order := ArgsortDesc(Counts(codes));
    seq(|order|, m requires 0 <= m < |order| => u[order[m]])
  }

  /** The colour selection as evidently intended: the colour of each cluster that occurs, most
      populated first. */
  function FrequencyOrder(rgbs: seq<Rgb>, codes: seq<nat>): (r: seq<Rgb>)
    requires Indices(codes, |rgbs|)
    ensures |r| == |Unique(codes)|
  {
    var d := DominanceOrder(codes);
    assert Bound(codes) <= |rgbs|;
    Select(rgbs, d)
  }

  lemma TwoOccurrences(s: seq<nat>, m: nat, m': nat)
    requires m < m' < |s| && s[m] == s[m']
    ensures multiset(s)[s[m]] >= 2
  {
    var x := s[m];
    assert s == s[..m'] + [x] + s[m' + 1..];
    assert s[..m'][m] == x;
    assert multiset(s[..m'])[x] >= 1;
  }

  lemma {:induction false} RangeOnce(n: nat, x: nat)
    ensures multiset(Range(n))[x] <= 1
    ensures x < n <==> x in Range(n)
  {
    if n > 0 {
      RangeOnce(n - 1, x);
      assert Range(n) == Range(n - 1) + [n - 1];
      assert n - 1 !in Range(n - 1);
    } else {
      assert Range(n) == [];
    }
  }

  /** The dominance order holds exactly the ids that occur. */
  lemma DominanceOrderMembers(codes: seq<nat>)
    ensures forall v: nat :: v in DominanceOrder(codes) <==> v in codes
  {
    var u := Unique(codes);
    var order := ArgsortDesc(Counts(codes));
    var d := DominanceOrder(codes);
    ArgsortDescOrders(Counts(codes));
    UniqueProperties(codes);
    forall v: nat | v in codes ensures v in d {
      var j :| 0 <= j < |u| && u[j] == v;
      RangeOnce(|u|, j);
      assert j in multiset(order);
      var m :| 0 <= m < |order| && order[m] == j;
      assert d[m] == v;
    }
    forall v: nat | v in d ensures v in codes {
      var m :| 0 <= m < |d| && d[m] == v;
      assert u[order[m]] in codes;
    }
  }

  /** No id appears twice in the dominance order. */
  lemma DominanceOrderDistinct(codes: seq<nat>)
    ensures forall m, m' :: 0 <= m < m' < |DominanceOrder(codes)| ==> DominanceOrder(codes)[m] != DominanceOrder(codes)[m']
  {
    var u := Unique(codes);
    var order := ArgsortDesc(Counts(codes));
    var d := DominanceOrder(codes);
    ArgsortDescOrders(Counts(codes));
    UniqueProperties(codes);
    forall m, m' | 0 <= m < m' < |d| ensures d[m] != d[m'] {
      if order[m] == order[m'] {
        TwoOccurrences(order, m, m');
        RangeOnce(|u|, order[m]);
      }
      assert order[m] < order[m'] ==> u[order[m]] < u[order[m']];
      assert order[m'] < order[m] ==> u[order[m']] < u[order[m]];
    }
  }

  /** Populations are non-increasing along the dominance order. */
  lemma DominanceOrderByPopulation(codes: seq<nat>)
    ensures forall m, m' :: 0 <= m < m' < |DominanceOrder(codes)| ==>
      Count(codes, DominanceOrder(codes)[m]) >= Count(codes, DominanceOrder(codes)[m'])
  {
    var counts := Counts(codes);
    var order := ArgsortDesc(counts);
    var d := DominanceOrder(codes);
    ArgsortDescOrders(counts);
    CountsProperties(codes);
    forall m, m' | 0 <= m < m' < |d| ensures Count(codes, d[m]) >= Count(codes, d[m']) {
      assert counts[order[m]] >= counts[order[m']];
    }
  }

  /** The first cluster of the dominance order is at least as populated as any cluster. */
  lemma MostPopulatedFirst(codes: seq<nat>)
    requires codes != []
    ensures |DominanceOrder(codes)| >= 1
    ensures forall v: nat :: v in codes ==> Count(codes, DominanceOrder(codes)[0]) >= Count(codes, v)
  {
    var d := DominanceOrder(codes);
    DominanceOrderMembers(codes);
    DominanceOrderByPopulation(codes);
    assert codes[0] in codes;
    forall v: nat | v in codes ensures Count(codes, d[0]) >= Count(codes, v) {
      var m :| 0 <= m < |d| && d[m] == v;
      if m > 0 {
        assert Count(codes, d[0]) >= Count(codes, d[m]);
      }
    }
  }

  /** Each selected colour is the colour of a cluster with at least one pixel, and the
      populations of the selected clusters are non-increasing. */
  lemma FrequencyOrderDominance(rgbs: seq<Rgb>, codes: seq<nat>)
    requires Indices(codes, |rgbs|)
    ensures forall m :: 0 <= m < |FrequencyOrder(rgbs, codes)| ==>
      FrequencyOrder(rgbs, codes)[m] == rgbs[DominanceOrder(codes)[m]] && Count(codes, DominanceOrder(codes)[m]) >= 1
  {
    DominanceOrderMembers(codes);
    assert Bound(codes) <= |rgbs|;
    SelectAt(rgbs, DominanceOrder(codes));
    forall m | 0 <= m < |DominanceOrder(codes)| ensures Count(codes, DominanceOrder(codes)[m]) >= 1 {
      assert DominanceOrder(codes)[m] in DominanceOrder(codes);
    }
  }

  /** Every id below `n` occurs: `np.unique` returns exactly `0, ..., n - 1`. */
  lemma {:induction false} UniqueBelowAll(codes: seq<nat>, n: nat)
    requires forall v: nat :: v < n ==> v in codes
    ensures UniqueBelow(codes, n) == Range(n)
  {
    if n > 0 {
      UniqueBelowAll(codes, n - 1);
      assert Range(n) == Range(n - 1) + [n - 1];
    } else {
      assert Range(n) == [];
    }
  }

  /** Selecting through an inserted position adds that position's colour. */
  lemma {:induction false} SelectInsertPermutes(rgbs: seq<Rgb>, i: nat, order: seq<nat>, counts: seq<nat>)
    requires i < |counts| == |rgbs| && Indices(order, |counts|)
    ensures multiset(Select(rgbs, InsertByCount(i, order, counts))) == multiset(Select(rgbs, order)) + multiset{rgbs[i]}
  {
    if order != [] && counts[i] < counts[order[0]] {
      SelectInsertPermutes(rgbs, i, order[1..], counts);
    }
  }

  /** Selecting through the sorted positions permutes the selection through the unsorted ones. */
  lemma {:induction false} SelectSortPermutes(rgbs: seq<Rgb>, idx: seq<nat>, counts: seq<nat>)
    requires |counts| == |rgbs| && Indices(idx, |counts|)
    ensures multiset(Select(rgbs, SortByCount(idx, counts))) == multiset(Select(rgbs, idx))
  {
    if idx != [] {
      SelectSortPermutes(rgbs, idx[1..], counts);
      SelectInsertPermutes(rgbs, idx[0], SortByCount(idx[1..], counts), counts);
    }
  }

  lemma SelectRange(rgbs: seq<Rgb>)
    ensures Select(rgbs, Range(|rgbs|)) == rgbs
  {
    SelectAt(rgbs, Range(|rgbs|));
  }

  /** When every centroid has at least one pixel, the two readings agree, and the result is a
      reordering of all the centroid colours. */
  lemma FrequencyOrderWhenAllPopulated(rgbs: seq<Rgb>, codes: seq<nat>)
    requires Indices(codes, |rgbs|)
    requires forall v: nat :: v < |rgbs| ==> v in codes
    ensures FrequencyOrderAsWritten(rgbs, codes) == FrequencyOrder(rgbs, codes)
    ensures multiset(FrequencyOrder(rgbs, codes)) == multiset(rgbs)
  {
    var n := |rgbs|;
    if n > 0 {
      assert n - 1 in codes;
    }
    assert Bound(codes) == n;
    UniqueBelowAll(codes, n);
    var order := ArgsortDesc(Counts(codes));
    ArgsortDescOrders(Counts(codes));
    assert DominanceOrder(codes) == order;
    SelectSortPermutes(rgbs, Range(n), Counts(codes));
    SelectRange(rgbs);
  }

  lemma ExampleUnique()
    ensures Unique([1, 1]) == [1]
  {
    var codes: seq<nat> := [1, 1];
    assert Bound(codes) == 2;
    assert 0 !in codes;
    assert UniqueBelow(codes, 1) == [];
  }

  lemma ExampleOrder()
    ensures Counts([1, 1]) == [2]
    ensures ArgsortDesc([2]) == [0]
    ensures DominanceOrder([1, 1]) == [1]
  {
    ExampleUnique();
    var codes: seq<nat> := [1, 1];
    assert multiset(codes)[1] == 2;
    assert Range(1) == [0];
  }

  /** Two centroids, every pixel in the second cluster: the code as written returns the colour
      of the first centroid, whose cluster is empty; the intended reading returns the second. */
  lemma AsWrittenPicksEmptyCluster(a: Rgb, b: Rgb)
    ensures FrequencyOrderAsWritten([a, b], [1, 1]) == [a]
    ensures Count([1, 1], 0) == 0
    ensures FrequencyOrder([a, b], [1, 1]) == [b]
  {
    ExampleOrder();
    var codes: seq<nat> := [1, 1];
    assert FrequencyOrderAsWritten([a, b], codes) == Select([a, b], [0]);
    assert FrequencyOrder([a, b], codes) == Select([a, b], [1]);
    assert multiset(codes)[0] == 0;
  }
}
