/**
  k-nearest majority classification (`knearest` in functions.py).

  For every query point the reference points inside a square window around
  it are ranked by distance, the first `k` are kept, and the query takes the
  most frequent risk label among them, ties going to the label met first in
  distance order.  Distances are compared squared, which orders points as
  the Euclidean distance does.
*/
module KNearest {
  import opened Wrappers

  datatype Point = Point(x: real, y: real)

  /** A reference point and its risk label. */
  datatype Sample = Sample(pos: Point, risk: string)

  /** A query point and the risk column the classifier fills in. */
  datatype Target = Target(pos: Point, risk: string)

  /** Indexing past the neighbours found for the query at position `query` raises. */
  datatype KnnError = IndexError(query: nat)

  /** The value the risk column holds before a query is classified. */
  const Unset: string := "NaN"

  function SqDist(p: Point, q: Point): real {
    (p.x - q.x) * (p.x - q.x) + (p.y - q.y) * (p.y - q.y)
  }

  /** `p` lies in the closed square of half-width `d` centred on `q`. */
  predicate InWindow(q: Point, d: real, p: Point) {
    q.x - d <= p.x <= q.x + d && q.y - d <= p.y <= q.y + d
  }

  // ---------------------------------------------------------------------
  // Filter

  /** The reference points inside the window, in their original order. */
  function Candidates(q: Point, samples: seq<Sample>, d: real): (r: seq<Sample>)
    ensures |r| <= |samples|
  {
    if samples == [] then []
    else (if InWindow(q, d, samples[0].pos) then [samples[0]] else []) + Candidates(q, samples[1..], d)
  }

  /**
    The candidates are exactly the reference points inside the window, each
    as often as it occurs among the references.
  */
  lemma {:induction false} CandidatesExact(q: Point, samples: seq<Sample>, d: real)
    ensures forall s :: multiset(Candidates(q, samples, d))[s]
                     == if InWindow(q, d, s.pos) then multiset(samples)[s] else 0
  {
    if samples != [] {
      assert samples == [samples[0]] + samples[1..];
      CandidatesExact(q, samples[1..], d);
    }
  }

  /** Widening the window never removes a candidate. */
  lemma WiderWindowKeepsCandidates(q: Point, samples: seq<Sample>, d: real, d': real)
    requires d <= d'
    ensures multiset(Candidates(q, samples, d)) <= multiset(Candidates(q, samples, d'))
    ensures |Candidates(q, samples, d)| <= |Candidates(q, samples, d')|
  {
    CandidatesExact(q, samples, d);
    CandidatesExact(q, samples, d');
    var small, large := multiset(Candidates(q, samples, d)), multiset(Candidates(q, samples, d'));
    assert small <= large;
    assert large == small + (large - small);
  }

  // ---------------------------------------------------------------------
  // Ranking

  /** A candidate with its `dist` column. */
  datatype Ranked = Ranked(dist: real, sample: Sample)

  /** The candidates with their squared distance to `q`, in their order. */
  function WithDist(q: Point, cands: seq<Sample>): (r: seq<Ranked>)
    ensures |r| == |cands|
    ensures forall i :: 0 <= i < |r| ==> r[i].sample == cands[i]
    ensures forall e :: e in r ==> e.dist == SqDist(e.sample.pos, q)
  {
    seq(|cands|, i requires 0 <= i < |cands| => Ranked(SqDist(cands[i].pos, q), cands[i]))
  }

  predicate SortedByDist(xs: seq<Ranked>) {
    forall i, j :: 0 <= i < j < |xs| ==> xs[i].dist <= xs[j].dist
  }

  /** Puts `e` in front of the first entry of `ys` that is not closer than it. */
  function Insert(e: Ranked, ys: seq<Ranked>): (r: seq<Ranked>)
    ensures multiset(r) == multiset(ys) + multiset{e}
  {
    if ys == [] || e.dist <= ys[0].dist then [e] + ys
    else
      assert ys == [ys[0]] + ys[1..];
      [ys[0]] + Insert(e, ys[1..])
  }

  /** Inserting into a list sorted by `dist` keeps it sorted. */
  lemma {:induction false} InsertSorted(e: Ranked, ys: seq<Ranked>)
    requires SortedByDist(ys)
    ensures SortedByDist(Insert(e, ys))
  {
    if ys == [] || e.dist <= ys[0].dist {
      var r := [e] + ys;
      forall i, j | 0 <= i < j < |r| ensures r[i].dist <= r[j].dist {
        assert r[j] == ys[j - 1];
        if i > 0 {
          assert r[i] == ys[i - 1];
        }
      }
    } else {
      var tail := ys[1..];
      assert SortedByDist(tail) by {
        forall i, j | 0 <= i < j < |tail| ensures tail[i].dist <= tail[j].dist {
          assert tail[i] == ys[i + 1] && tail[j] == ys[j + 1];
        }
      }
      var rest := Insert(e, tail);
      InsertSorted(e, tail);
      assert forall i :: 0 <= i < |tail| ==> ys[0].dist <= tail[i].dist;
      BoundedBelow(ys[0].dist, e, tail, rest);
      var r := [ys[0]] + rest;
      assert Insert(e, ys) == r;
      forall i, j | 0 <= i < j < |r| ensures r[i].dist <= r[j].dist {
        assert r[j] == rest[j - 1];
        if i > 0 {
          assert r[i] == rest[i - 1];
        }
      }
    }
  }

  /** A bound below `e` and every entry of `ys` is a bound below any rearrangement of them. */
  lemma BoundedBelow(b: real, e: Ranked, ys: seq<Ranked>, r: seq<Ranked>)
    requires multiset(r) == multiset(ys) + multiset{e}
    ensures b <= e.dist && (forall i :: 0 <= i < |ys| ==> b <= ys[i].dist) ==>
            forall i :: 0 <= i < |r| ==> b <= r[i].dist
  {
    if b <= e.dist && (forall i :: 0 <= i < |ys| ==> b <= ys[i].dist) {
      forall i | 0 <= i < |r| ensures b <= r[i].dist {
        assert r[i] in multiset(r);
        if r[i] != e {
          assert r[i] in multiset(ys);
          var j :| 0 <= j < |ys| && ys[j] == r[i];
        }
      }
    }
  }

  /**
    The entries in non-decreasing `dist`, by insertion. By construction
    (`Insert` stops before the first entry that is not closer) entries of
    equal `dist` keep their input order; the contract states only the
    permutation and the order by `dist`.
  */
  function SortByDist(xs: seq<Ranked>): (r: seq<Ranked>)
    ensures multiset(r) == multiset(xs)
    ensures |r| == |xs|
    ensures SortedByDist(r)
  {
    if xs == [] then []
    else
      assert xs == [xs[0]] + xs[1..];
      var r := Insert(xs[0], SortByDist(xs[1..]));
      InsertSorted(xs[0], SortByDist(xs[1..]));
      assert |r| == |multiset(r)|;
      r
  }

  /** The first `k` candidates in distance order, as `sort_values` then `[:k]`. */
  function Nearest(q: Point, cands: seq<Sample>, k: int): (r: seq<Ranked>)
    requires 0 <= k <= |cands|
    ensures |r| == k
  {
    SortByDist(WithDist(q, cands))[..k]
  }

  /** In a list sorted by `dist`, the first `k` entries are no farther than any other entry. */
  lemma PrefixIsClosest(sorted: seq<Ranked>, k: int)
    requires SortedByDist(sorted) && 0 <= k <= |sorted|
    ensures forall a, b :: a in sorted[..k] && b in multiset(sorted) - multiset(sorted[..k]) ==> a.dist <= b.dist
  {
    var sel, rest := sorted[..k], sorted[k..];
    assert sorted == sel + rest;
    assert multiset(sorted) - multiset(sel) == multiset(rest);
    forall a, b | a in sel && b in multiset(rest)
      ensures a.dist <= b.dist
    {
      var i, j := InSlices(sorted, k, a, b);
    }
  }

  /** Positions of an entry of the first `k` and of an entry of the rest. */
  lemma InSlices(s: seq<Ranked>, k: int, a: Ranked, b: Ranked) returns (i: int, j: int)
    requires 0 <= k <= |s| && a in s[..k] && b in multiset(s[k..])
    ensures 0 <= i < k <= j < |s| && s[i] == a && s[j] == b
  {
    var sel, rest := s[..k], s[k..];
    i :| 0 <= i < k && sel[i] == a;
    assert b in rest;
    var j' :| 0 <= j' < |rest| && rest[j'] == b;
    j := k + j';
  }

  /**
    The selection holds `k` of the candidates, each with its true squared
    distance, in non-decreasing distance, and each of them is at least as
    close as every candidate left out.
  */
  lemma NearestSelection(q: Point, cands: seq<Sample>, k: int)
    requires 0 <= k <= |cands|
    ensures var sel := Nearest(q, cands, k);
      var all := WithDist(q, cands);
      && |sel| == k
      && SortedByDist(sel)
      && multiset(sel) <= multiset(all)
      && (forall e :: e in sel ==> e.sample in cands && e.dist == SqDist(e.sample.pos, q))
      && (forall a, b :: a in sel && b in multiset(all) - multiset(sel) ==> a.dist <= b.dist)
  {
    var all := WithDist(q, cands);
    var sorted := SortByDist(all);
    var sel := sorted[..k];
    assert sorted == sel + sorted[k..];
    assert multiset(all) == multiset(sel) + multiset(sorted[k..]);
    assert SortedByDist(sel) by {
      forall i, j | 0 <= i < j < |sel| ensures sel[i].dist <= sel[j].dist {
        assert sel[i] == sorted[i] && sel[j] == sorted[j];
      }
    }
    PrefixIsClosest(sorted, k);
    DrawnFromCandidates(q, cands, sel);
  }

  /** Entries drawn from the `dist` column are candidates with their true squared distance. */
  lemma DrawnFromCandidates(q: Point, cands: seq<Sample>, sel: seq<Ranked>)
    requires multiset(sel) <= multiset(WithDist(q, cands))
    ensures forall e :: e in sel ==> e.sample in cands && e.dist == SqDist(e.sample.pos, q)
  {
    var all := WithDist(q, cands);
    forall e | e in sel ensures e.sample in cands && e.dist == SqDist(e.sample.pos, q) {
      assert e in multiset(all);
      assert e in all;
    }
  }

  // ---------------------------------------------------------------------
  // Vote

  /** The risk labels of the selected neighbours, in distance order. */
  function Labels(xs: seq<Ranked>): (r: seq<string>)
    ensures |r| == |xs|
    ensures forall i :: 0 <= i < |r| ==> r[i] == xs[i].sample.risk
  {
    seq(|xs|, i requires 0 <= i < |xs| => xs[i].sample.risk)
  }

  function Count(labels: seq<string>, l: string): nat {
    multiset(labels)[l]
  }

  /**
    `l` is a most frequent label and sits at the first position that holds
    one: every label before that position is strictly less frequent.
  */
  ghost predicate IsMostCommon(labels: seq<string>, l: string) {
    && (forall i :: 0 <= i < |labels| ==> Count(labels, labels[i]) <= Count(labels, l))
    && exists j :: && 0 <= j < |labels| && labels[j] == l
                   && forall i :: 0 <= i < j ==> Count(labels, labels[i]) < Count(labels, l)
  }

  /**
    The position a scan of the first `n` labels settles on when it replaces
    its choice only by a strictly more frequent label, as a maximum over the
    labels in first-occurrence order does.
  */
  function MostCommonAt(labels: seq<string>, n: nat): (j: nat)
    requires 1 <= n <= |labels|
    ensures j < n
    ensures forall i :: 0 <= i < n ==> Count(labels, labels[i]) <= Count(labels, labels[j])
    ensures forall i :: 0 <= i < j ==> Count(labels, labels[i]) < Count(labels, labels[j])
  {
    if n == 1 then 0
    else
      var best := MostCommonAt(labels, n - 1);
      if Count(labels, labels[n - 1]) > Count(labels, labels[best]) then n - 1 else best
  }

  /** `Counter(labels).most_common(1)[0][0]`. */
  function Vote(labels: seq<string>): (v: string)
    requires |labels| > 0
    ensures v in labels
    ensures IsMostCommon(labels, v)
  {
    labels[MostCommonAt(labels, |labels|)]
  }

  /** The vote is the only label that is most common with the first-position tie-break. */
  lemma VoteUnique(labels: seq<string>, l: string)
    requires |labels| > 0 && IsMostCommon(labels, l)
    ensures l == Vote(labels)
  {
    var j := MostCommonAt(labels, |labels|);
    var p :| && 0 <= p < |labels| && labels[p] == l
             && forall i :: 0 <= i < p ==> Count(labels, labels[i]) < Count(labels, l);
    assert Count(labels, labels[p]) <= Count(labels, labels[j]);
    assert Count(labels, labels[j]) <= Count(labels, l);
    if p < j {
      assert Count(labels, labels[p]) < Count(labels, labels[j]);
    }
  }

  // ---------------------------------------------------------------------
  // Classification of one query

  /** The query at `q` can be classified: at least one neighbour wanted and enough in the window. */
  predicate Feasible(q: Point, samples: seq<Sample>, k: int, d: real) {
    1 <= k <= |Candidates(q, samples, d)|
  }

  /** The label a feasible query receives. */
  function RiskOf(q: Point, samples: seq<Sample>, k: int, d: real): string
    requires Feasible(q, samples, k, d)
  {
    Vote(Labels(Nearest(q, Candidates(q, samples, d), k)))
  }

  /** The query at `q` can be classified and receives the label `v`. */
  predicate Receives(q: Point, samples: seq<Sample>, k: int, d: real, v: string) {
    Feasible(q, samples, k, d) && v == RiskOf(q, samples, k, d)
  }

  lemma ReceivesVote(q: Point, samples: seq<Sample>, k: int, d: real, v: string)
    requires 1 <= k <= |Candidates(q, samples, d)|
    requires v == Vote(Labels(SortByDist(WithDist(q, Candidates(q, samples, d)))[..k]))
    ensures Receives(q, samples, k, d, v)
  {
  }

  /** The first entry of the ranking is a candidate at least as close as every candidate. */
  lemma HeadIsClosest(q: Point, cands: seq<Sample>)
    requires |cands| > 0
    ensures var e := SortByDist(WithDist(q, cands))[0];
      && e.sample in cands
      && forall c' :: c' in cands ==> SqDist(e.sample.pos, q) <= SqDist(c'.pos, q)
  {
    var all := WithDist(q, cands);
    var sorted := SortByDist(all);
    var e := sorted[0];
    assert e in multiset(all);
    forall c' | c' in cands ensures SqDist(e.sample.pos, q) <= SqDist(c'.pos, q) {
      var i :| 0 <= i < |cands| && cands[i] == c';
      assert all[i] in multiset(sorted);
      var j :| 0 <= j < |sorted| && sorted[j] == all[i];
    }
  }

  /** With one neighbour the query takes the label of a closest candidate. */
  lemma SingleNeighbourIsNearest(q: Point, samples: seq<Sample>, d: real)
    requires Feasible(q, samples, 1, d)
    ensures exists c :: && c in Candidates(q, samples, d)
                        && RiskOf(q, samples, 1, d) == c.risk
                        && forall c' :: c' in Candidates(q, samples, d) ==> SqDist(c.pos, q) <= SqDist(c'.pos, q)
  {
    var cands := Candidates(q, samples, d);
    var e := SortByDist(WithDist(q, cands))[0];
    HeadIsClosest(q, cands);
    assert Nearest(q, cands, 1) == [e];
    assert Labels([e]) == [e.sample.risk];
    assert RiskOf(q, samples, 1, d) == e.sample.risk;
  }

  function ExampleSamples(): seq<Sample> {
    [Sample(Point(0.0, 0.0), "Low"), Sample(Point(1.0, 0.0), "High"), Sample(Point(0.0, 1.0), "High")]
  }

  lemma ExampleWindow()
    ensures Candidates(Point(0.1, 0.1), ExampleSamples(), 5.0) == ExampleSamples()
  {
    var q, samples := Point(0.1, 0.1), ExampleSamples();
    assert samples[1..][1..][1..] == [];
    assert Candidates(q, samples[1..][1..], 5.0) == samples[1..][1..];
    assert Candidates(q, samples[1..], 5.0) == samples[1..];
  }

  lemma ExampleRanking()
    ensures var all := WithDist(Point(0.1, 0.1), ExampleSamples());
      SortByDist(all) == all && all[0].sample.risk == "Low" && all[1].sample.risk == "High"
  {
    var all := WithDist(Point(0.1, 0.1), ExampleSamples());
    assert all[0].dist == 0.02 && all[1].dist == 0.82 && all[2].dist == 0.82;
    assert all[1..][1..][1..] == [];
    assert SortByDist(all[1..][1..]) == all[1..][1..];
    assert SortByDist(all[1..]) == all[1..];
  }

  /**
    References Low at (0,0) and High at (1,0) and (0,1), query (0.1,0.1),
    two neighbours, window 5: the two High points are equally far, the first
    of them is kept, and the 1-1 tie goes to the closer Low.
  */
  lemma TieGoesToCloserLabel()
    ensures Feasible(Point(0.1, 0.1), ExampleSamples(), 2, 5.0)
    ensures RiskOf(Point(0.1, 0.1), ExampleSamples(), 2, 5.0) == "Low"
  {
    ExampleWindow();
    ExampleLabels();
    TieVote();
  }

  lemma ExampleLabels()
    ensures Labels(Nearest(Point(0.1, 0.1), ExampleSamples(), 2)) == ["Low", "High"]
  {
    ExampleRanking();
  }

  /** One vote each: the scan keeps the first label. */
  lemma TieVote()
    ensures Vote(["Low", "High"]) == "Low"
  {
    var labels := ["Low", "High"];
    assert Count(labels, "Low") == 1 && Count(labels, "High") == 1;
    assert MostCommonAt(labels, 2) == 0;
  }

  // ---------------------------------------------------------------------
  // The classifier

  /**
    The body of the query loop: filter the references to the window, rank
    them by distance, keep the first `k` and vote. `None` is the `IndexError`
    the source raises when fewer than `k` candidates (or `k < 1`) are there.
  */
  method ClassifyQuery(from: Point, samples: seq<Sample>, k: int, d: real) returns (risk: Option<string>)
    ensures risk.Some? <==> Feasible(from, samples, k, d)
    ensures risk.Some? ==> risk.value == RiskOf(from, samples, k, d)
  {
    var regional := Candidates(from, samples, d);
    var ranked := SortByDist(WithDist(from, regional));
    if k < 1 || |ranked| < k {
      return None;
    }
    var risklist := Labels(ranked[..k]);
    var v := Vote(risklist);
    ReceivesVote(from, samples, k, d, v);
    return Some(v);
  }

  /**
    Classifies every query in turn, writing its label into the risk column
    at the query's own position; the first query that cannot be classified
    raises and nothing is returned.
  */
  method KNearest(targets: seq<Point>, samples: seq<Sample>, k: int, d: real)
    returns (res: Result<seq<Target>, KnnError>)
    ensures res.Failure? <==> exists i :: 0 <= i < |targets| && !Feasible(targets[i], samples, k, d)
    ensures res.Failure? ==>
      && res.error.query < |targets|
      && !Feasible(targets[res.error.query], samples, k, d)
      && forall i :: 0 <= i < res.error.query ==> Feasible(targets[i], samples, k, d)
    ensures res.Success? ==>
      && |res.value| == |targets|
      && forall i :: 0 <= i < |targets| ==> res.value[i] == Target(targets[i], RiskOf(targets[i], samples, k, d))
  {
    var risk := seq(|targets|, _ => Unset);
    for i := 0 to |targets|
      invariant |risk| == |targets|
      invariant forall j :: 0 <= j < i ==> Receives(targets[j], samples, k, d, risk[j])
    {
      var verdict := ClassifyQuery(targets[i], samples, k, d);
      if verdict.None? {
        return Failure(IndexError(i));
      }
      risk := risk[i := verdict.value];
    }
    var out := seq(|targets|, j requires 0 <= j < |targets| => Target(targets[j], risk[j]));
    assert forall i :: 0 <= i < |targets| ==> out[i] == Target(targets[i], risk[i]);
    return Success(out);
  }
}
