/**
 * Per-replica timeline reconstruction of the benchmark analysis (benchmark.py):
 * gap filling of sparse iteration -> value lists and classification of the
 * observed finalization records.
 */
module Timeline {

  /** The finalization label of one iteration: 'FP', 'IC' or '-' (no record). */
  datatype Label = FP | IC | Unfinalized

  /** Python's `min` over a non-empty list. */
  function Min(s: seq<int>): (m: int)
    requires |s| > 0
    ensures m in s
    ensures forall j :: 0 <= j < |s| ==> m <= s[j]
  {
    if |s| == 1 then s[0]
    else
      var rest := Min(s[1..]);
      if s[0] <= rest then s[0] else rest
  }

  /** Python's `max` over a non-empty list. */
  function Max(s: seq<int>): (m: int)
    requires |s| > 0
    ensures m in s
    ensures forall j :: 0 <= j < |s| ==> s[j] <= m
  {
    if |s| == 1 then s[0]
    else
      var rest := Max(s[1..]);
      if s[0] >= rest then s[0] else rest
  }

  /** Python's `list.index`: the position of the first occurrence of `x`. */
  function IndexOf<T(==)>(s: seq<T>, x: T): (k: nat)
    requires x in s
    ensures k < |s| && s[k] == x
    ensures forall j :: 0 <= j < k ==> s[j] != x
  {
    if s[0] == x then 0 else 1 + IndexOf(s[1..], x)
  }

  /** The number of occurrences of `x` in `s` from position `lo` on (Python's `list.count` for `lo == 0`). */
  function CountFrom<T(==)>(s: seq<T>, lo: nat, x: T): (r: nat)
    requires lo <= |s|
    ensures r <= |s| - lo
    ensures r == 0 <==> forall j :: lo <= j < |s| ==> s[j] != x
    decreases |s| - lo
  {
    if lo == |s| then 0 else (if s[lo] == x then 1 else 0) + CountFrom(s, lo + 1, x)
  }

  function Count<T(==)>(s: seq<T>, x: T): (r: nat)
    ensures r <= |s|
    ensures r == 0 <==> x !in s
  {
    CountFrom(s, 0, x)
  }

  /** The filled iteration axis: every integer from the smallest to the largest observed iteration. */
  function Axis(iterations: seq<int>): (r: seq<int>)
    requires |iterations| > 0
    ensures |r| == Max(iterations) - Min(iterations) + 1
    ensures forall k :: 0 <= k < |r| ==> r[k] == Min(iterations) + k
  {
    seq(Max(iterations) - Min(iterations) + 1, k => Min(iterations) + k)
  }

  /** The value the filled timeline holds at iteration `i`: the metric of the first
      occurrence of `i` among the observed iterations, or the caller's default. */
  function FilledAt<T>(iterations: seq<int>, metrics: seq<T>, default: T, i: int): T
    requires |iterations| <= |metrics|
  {
    if i in iterations then metrics[IndexOf(iterations, i)] else default
  }

  /** The filled metric list, one entry per iteration of `Axis(iterations)`. */
  function Filled<T>(iterations: seq<int>, metrics: seq<T>, default: T): (r: seq<T>)
    requires 0 < |iterations| <= |metrics|
    ensures |r| == Max(iterations) - Min(iterations) + 1
    ensures forall k :: 0 <= k < |r| ==> r[k] == FilledAt(iterations, metrics, default, Min(iterations) + k)
  {
    seq(Max(iterations) - Min(iterations) + 1,
        k => FilledAt(iterations, metrics, default, Min(iterations) + k))
  }

  /**
   * `fillMissingElements`: walks every iteration between the smallest and the largest
   * observed one and appends either the observed metric or `default`.
   * `min`/`max` fail on an empty list, and `metrics[index]` needs `metrics` to be at
   * least as long as `iterations` (the two lists are parallel in every caller).
   */
  method FillMissingElements<T>(iterations: seq<int>, metrics: seq<T>, default: T)
    returns (filledIterations: seq<int>, filledMetrics: seq<T>)
    requires 0 < |iterations| <= |metrics|
    ensures filledIterations == Axis(iterations)
    ensures filledMetrics == Filled(iterations, metrics, default)
  {
    filledIterations, filledMetrics := [], [];
    var lo, hi := Min(iterations), Max(iterations);
    for i := lo to hi + 1
      invariant |filledIterations| == |filledMetrics| == i - lo
      invariant forall k :: 0 <= k < i - lo ==> filledIterations[k] == lo + k
      invariant forall k :: 0 <= k < i - lo ==>
                  filledMetrics[k] == FilledAt(iterations, metrics, default, lo + k)
    {
      if i in iterations {
        var index := IndexOf(iterations, i);
        filledIterations := filledIterations + [iterations[index]];
        filledMetrics := filledMetrics + [metrics[index]];
      } else {
        filledIterations := filledIterations + [i];
        filledMetrics := filledMetrics + [default];
      }
    }
  }

  /** The filled axis is dense: it starts at the smallest observed iteration, ends at the
      largest and goes up by exactly one per entry. */
  lemma AxisIsDense(iterations: seq<int>)
    requires |iterations| > 0
    ensures |Axis(iterations)| == Max(iterations) - Min(iterations) + 1
    ensures Axis(iterations)[0] == Min(iterations)
    ensures Axis(iterations)[|Axis(iterations)| - 1] == Max(iterations)
    ensures forall k :: 0 <= k < |Axis(iterations)| - 1 ==> Axis(iterations)[k + 1] == Axis(iterations)[k] + 1
  {
  }

  /** One observed iteration lies on the axis and keeps the metric of its first occurrence. */
  lemma ObservedIterationKeepsItsMetric<T>(iterations: seq<int>, metrics: seq<T>, default: T, j: nat)
    requires 0 < |iterations| <= |metrics|
    requires j < |iterations|
    ensures 0 <= iterations[j] - Min(iterations) < |Axis(iterations)|
    ensures Axis(iterations)[iterations[j] - Min(iterations)] == iterations[j]
    ensures Filled(iterations, metrics, default)[iterations[j] - Min(iterations)]
            == metrics[IndexOf(iterations, iterations[j])]
  {
    var i := iterations[j];
    var k := i - Min(iterations);
    assert Min(iterations) <= i <= Max(iterations);
    assert i in iterations;
    assert Min(iterations) + k == i;
    assert Filled(iterations, metrics, default)[k] == FilledAt(iterations, metrics, default, i);
  }

  /** When the observed iterations are distinct (they are the keys of a JSON object),
      each one keeps exactly its own metric. */
  lemma DistinctIterationKeepsOwnMetric<T>(iterations: seq<int>, metrics: seq<T>, default: T, j: nat)
    requires 0 < |iterations| <= |metrics|
    requires forall a, b :: 0 <= a < b < |iterations| ==> iterations[a] != iterations[b]
    requires j < |iterations|
    ensures 0 <= iterations[j] - Min(iterations) < |Filled(iterations, metrics, default)|
    ensures Filled(iterations, metrics, default)[iterations[j] - Min(iterations)] == metrics[j]
  {
    ObservedIterationKeepsItsMetric(iterations, metrics, default, j);
    var k := IndexOf(iterations, iterations[j]);
    assert !(k < j) && !(j < k);
  }

  /** An iteration missing from the observations holds the default. */
  lemma MissingIterationsGetDefault<T>(iterations: seq<int>, metrics: seq<T>, default: T)
    requires 0 < |iterations| <= |metrics|
    ensures forall k :: 0 <= k < |Filled(iterations, metrics, default)| && Min(iterations) + k !in iterations ==>
              Filled(iterations, metrics, default)[k] == default
  {
  }

  /** Classification of one observed record (benchmark.py, line 150). */
  function Classify(fpFinalization: bool): (l: Label)
    ensures l != Unfinalized
    ensures l == FP <==> fpFinalization
  {
    if fpFinalization then FP else IC
  }

  /** The classification comprehension over all observed records. */
  function ClassifyAll(fpFinalizations: seq<bool>): (r: seq<Label>)
    ensures |r| == |fpFinalizations|
    ensures forall k :: 0 <= k < |r| ==> r[k] != Unfinalized && (r[k] == FP <==> fpFinalizations[k])
  {
    seq(|fpFinalizations|, k requires 0 <= k < |fpFinalizations| => Classify(fpFinalizations[k]))
  }

  /** The filled label timeline opens with an observed label: its first iteration is the
      smallest observed one, whose record is classified 'FP' or 'IC'. */
  lemma FilledLabelsOpenObserved(iterations: seq<int>, fpFinalizations: seq<bool>)
    requires 0 < |iterations| <= |fpFinalizations|
    ensures |Filled(iterations, ClassifyAll(fpFinalizations), Unfinalized)| > 0
    ensures Filled(iterations, ClassifyAll(fpFinalizations), Unfinalized)[0] != Unfinalized
  {
    var labels := ClassifyAll(fpFinalizations);
    assert Min(iterations) in iterations;
    assert Filled(iterations, labels, Unfinalized)[0] == labels[IndexOf(iterations, Min(iterations))];
  }

  /**
   * Lines 147-151 of the benchmark driver for one replica: latencies are filled with
   * zero and labels with '-' from the same observed iterations, so both share one axis,
   * and the label timeline opens with an observed label.
   */
  method ReplicaTimeline<L>(iterations: seq<int>, latencies: seq<L>, fpFinalizations: seq<bool>, zero: L)
    returns (filledIterations: seq<int>, filledLatencies: seq<L>, filledLabels: seq<Label>)
    requires 0 < |iterations| <= |latencies|
    requires |iterations| <= |fpFinalizations|
    ensures filledIterations == Axis(iterations)
    ensures filledLatencies == Filled(iterations, latencies, zero)
    ensures filledLabels == Filled(iterations, ClassifyAll(fpFinalizations), Unfinalized)
    ensures |filledLatencies| == |filledLabels| == |filledIterations| > 0
    ensures filledLabels[0] != Unfinalized
  {
    filledIterations, filledLatencies := FillMissingElements(iterations, latencies, zero);
    var labels := ClassifyAll(fpFinalizations);
    var _, l := FillMissingElements(iterations, labels, Unfinalized);
    filledLabels := l;
    FilledLabelsOpenObserved(iterations, fpFinalizations);
  }

  /** The 'FP', 'IC' and '-' tallies of a label list add up to its length. */
  lemma {:induction false} TalliesCoverTimeline(labels: seq<Label>, lo: nat)
    requires lo <= |labels|
    ensures CountFrom(labels, lo, FP) + CountFrom(labels, lo, IC) + CountFrom(labels, lo, Unfinalized)
            == |labels| - lo
    decreases |labels| - lo
  {
    if lo < |labels| {
      TalliesCoverTimeline(labels, lo + 1);
      assert labels[lo] == FP || labels[lo] == IC || labels[lo] == Unfinalized;
    }
  }
}
