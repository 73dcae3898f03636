/**
  Road segmentation (`road_split` in functions.py).

  A road line is modelled by its length along its own path, and every piece
  cut from it by the range of distances along the line that the piece
  covers; cutting along the path itself is the geometry library's business.
*/
module RoadSplit {
  import opened Wrappers

  /** The length of a line; a line is never shorter than nothing. */
  type Length = x: real | 0.0 <= x

  /** The piece of a line between distances `start` and `end` from its first vertex. */
  datatype Segment = Segment(start: real, end: real)

  /** Dividing a line's length by a zero resolution raises. */
  datatype SplitError = ZeroDivision

  /** The distance `count * resolution` along a line. */
  function Mark(r: real, c: int): real {
    r * (c as real)
  }

  /** The number of full resolution steps the source computes for a line. */
  function SegCount(len: Length, r: real): int
    requires r != 0.0
  {
    (len / r).Floor
  }

  /** What one pass of the inner loop appends for a given `count`. */
  function Step(len: Length, r: real, c: int): seq<Segment> {
    if len - Mark(r, c) > r then
      [Segment(Mark(r, c - 1), Mark(r, c))]
    else
      [Segment(Mark(r, c - 1), Mark(r, c)), Segment(Mark(r, c), len)]
  }

  /** What the inner loop has appended after the passes for counts 1..n. */
  function Steps(len: Length, r: real, n: int): seq<Segment>
    decreases n
  {
    if n <= 0 then [] else Steps(len, r, n - 1) + Step(len, r, n)
  }

  /** The pieces the source emits for one line. */
  function LineSegments(len: Length, r: real): seq<Segment>
    requires r != 0.0
  {
    if len < r then [Segment(0.0, len)] else Steps(len, r, SegCount(len, r))
  }

  /** The pieces the source emits for a whole network, line after line. */
  function Split(lines: seq<Length>, r: real): seq<Segment>
    requires r != 0.0 || lines == []
  {
    if lines == [] then []
    else Split(lines[..|lines| - 1], r) + LineSegments(lines[|lines| - 1], r)
  }

  /** The outcome of `road_split`: a zero resolution raises on the first line. */
  function SplitRoads(lines: seq<Length>, r: real): Result<seq<Segment>, SplitError> {
    if r == 0.0 && lines != [] then Failure(ZeroDivision) else Success(Split(lines, r))
  }

  /** `m` consecutive full-resolution ranges starting at distance 0. */
  function Regular(r: real, m: nat): seq<Segment> {
    seq(m, i => Segment(Mark(r, i), Mark(r, i + 1)))
  }

  function SegLength(s: Segment): real {
    s.end - s.start
  }

  /** The summed length of a list of pieces. */
  function TotalLength(segs: seq<Segment>): real {
    if segs == [] then 0.0 else TotalLength(segs[..|segs| - 1]) + SegLength(segs[|segs| - 1])
  }

  /** Every piece begins where the previous one ends. */
  predicate Chained(segs: seq<Segment>) {
    forall i :: 0 <= i < |segs| - 1 ==> segs[i].end == segs[i + 1].start
  }

  /** The pieces run in order, without gap or overlap, from distance 0 to `len`. */
  predicate Covers(segs: seq<Segment>, len: real) {
    && |segs| > 0
    && segs[0].start == 0.0
    && segs[|segs| - 1].end == len
    && Chained(segs)
  }

  /** The segmentation loop of `road_split`, appending to one output list. */
  method RoadSplit(lines: seq<Length>, resolution: real) returns (res: Result<seq<Segment>, SplitError>)
    ensures res == SplitRoads(lines, resolution)
  {
    var segmented: seq<Segment> := [];
    for i := 0 to |lines|
      invariant resolution == 0.0 ==> i == 0
      invariant segmented == Split(lines[..i], resolution)
    {
      if resolution == 0.0 && !(lines[i] < resolution) {
        return Failure(ZeroDivision);
      }
      SplitSnoc(lines, i, resolution);
      segmented := AppendLine(segmented, lines[i], resolution);
    }
    assert lines[..|lines|] == lines;
    return Success(segmented);
  }

  /**
    The body of the line loop: a line shorter than the resolution is appended
    whole; otherwise the inner loop appends one or two pieces per `count` in
    `1..seg_count`.
  */
  method AppendLine(segmented: seq<Segment>, len: Length, resolution: real) returns (out: seq<Segment>)
    requires resolution != 0.0
    ensures out == segmented + LineSegments(len, resolution)
  {
    out := segmented;
    if len < resolution {
      assert LineSegments(len, resolution) == [Segment(0.0, len)];
      out := out + [Segment(0.0, len)];
      return;
    }
    assert LineSegments(len, resolution) == Steps(len, resolution, SegCount(len, resolution));
    var segCount := (len / resolution).Floor;
    var count := 1;
    while count <= segCount
      invariant 1 <= count <= if segCount < 1 then 1 else segCount + 1
      invariant out == segmented + Steps(len, resolution, count - 1)
    {
      StepShape(len, resolution, count);
      ghost var prev := out;
      if len - resolution * (count as real) > resolution {
        out := out + [Segment(resolution * ((count - 1) as real), resolution * (count as real))];
      } else {
        out := out + [Segment(resolution * ((count - 1) as real), resolution * (count as real))];
        out := out + [Segment(resolution * (count as real), len)];
      }
      assert out == prev + Step(len, resolution, count);
      AppendAssoc(segmented, Steps(len, resolution, count - 1), Step(len, resolution, count));
      count := count + 1;
    }
    assert Steps(len, resolution, count - 1) == Steps(len, resolution, segCount);
  }

  lemma AppendAssoc(a: seq<Segment>, b: seq<Segment>, c: seq<Segment>)
    ensures (a + b) + c == a + (b + c)
  {
  }

  /** One pass of the inner loop appends `Step`, written with the source's products. */
  lemma StepShape(len: Length, r: real, c: int)
    requires c >= 1
    ensures Steps(len, r, c) == Steps(len, r, c - 1) + Step(len, r, c)
    ensures len - r * (c as real) > r ==> Step(len, r, c) == [Segment(r * ((c - 1) as real), r * (c as real))]
    ensures !(len - r * (c as real) > r) ==>
      Step(len, r, c) == [Segment(r * ((c - 1) as real), r * (c as real)), Segment(r * (c as real), len)]
  {
    assert Mark(r, c - 1) == r * ((c - 1) as real) && Mark(r, c) == r * (c as real);
  }

  /** The pieces of the first `i + 1` lines extend those of the first `i` by line `i`'s. */
  lemma SplitSnoc(lines: seq<Length>, i: nat, r: real)
    requires i < |lines| && r != 0.0
    ensures Split(lines[..i + 1], r) == Split(lines[..i], r) + LineSegments(lines[i], r)
  {
    assert lines[..i + 1][..i] == lines[..i];
  }

  // ---------------------------------------------------------------------
  // Arithmetic of the cut points

  lemma MarkNext(r: real, c: int)
    ensures Mark(r, c + 1) == Mark(r, c) + r
  {
  }

  lemma MarkMonotone(r: real, a: int, b: int)
    requires 0.0 < r && a <= b
    ensures Mark(r, a) <= Mark(r, b)
  {
    assert Mark(r, b) - Mark(r, a) == r * ((b - a) as real);
  }

  lemma MulLess(r: real, a: real, b: real)
    requires 0.0 < r && a <= b
    ensures r * a <= r * b && (a < b ==> r * a < r * b)
  {
  }

  lemma DivPos(x: real, r: real)
    requires 0.0 < r && 0.0 <= x
    ensures 0.0 <= x / r && (0.0 < x ==> 0.0 < x / r)
  {
  }

  lemma DivBelow(a: real, b: real, r: real)
    requires 0.0 < r && a < b
    ensures a / r < b / r
  {
    DivPos(b - a, r);
    assert (b - a) / r == b / r - a / r;
  }

  /** `seg_count` full steps fit in the line and one more does not. */
  lemma SegCountBounds(len: Length, r: real)
    requires 0.0 < r
    ensures Mark(r, SegCount(len, r)) <= len < Mark(r, SegCount(len, r)) + r
    ensures r <= len ==> 1 <= SegCount(len, r)
  {
    var t := len / r;
    var m := t.Floor as real;
    assert m <= t < m + 1.0;
    MulLess(r, m, t);
    MulLess(r, t, m + 1.0);
    assert r * t == len;
    assert r * (m + 1.0) == r * m + r;
    assert Mark(r, SegCount(len, r)) == r * m;
    assert len < Mark(r, SegCount(len, r)) + r;
    if r <= len {
      MulLess(r, 1.0, t);
    }
  }

  lemma SegCountOfMultiple(r: real, n: nat)
    requires 0.0 < r
    ensures Mark(r, n) >= 0.0 && SegCount(Mark(r, n), r) == n
  {
    MarkMonotone(r, 0, n);
    assert Mark(r, n) / r == n as real;
  }

  // ---------------------------------------------------------------------
  // Layout of one line's pieces

  /** While the remainder stays above one resolution, each pass appends one full range. */
  lemma {:induction false} StepsBelow(len: Length, r: real, m: nat)
    requires 0.0 < r && Mark(r, m) < len - r
    ensures Steps(len, r, m) == Regular(r, m)
  {
    if m > 0 {
      MarkMonotone(r, m - 1, m);
      StepsBelow(len, r, m - 1);
      assert Regular(r, m) == Regular(r, m - 1) + [Segment(Mark(r, m - 1), Mark(r, m))];
    }
  }

  /** A line shorter than the resolution is emitted unchanged, as one piece. */
  lemma ShortLineKept(len: Length, r: real)
    requires len < r
    ensures LineSegments(len, r) == [Segment(0.0, len)]
  {
  }

  /**
    A line at least one resolution long whose length is not a multiple of the
    resolution becomes `n` full ranges followed by one shorter tail.
  */
  lemma NonMultipleLayout(len: Length, r: real)
    requires 0.0 < r <= len && Mark(r, SegCount(len, r)) != len
    ensures var n := SegCount(len, r);
      && 1 <= n
      && LineSegments(len, r) == Regular(r, n) + [Segment(Mark(r, n), len)]
      && 0.0 < len - Mark(r, n) < r
  {
    var n := SegCount(len, r);
    SegCountBounds(len, r);
    MarkNext(r, n - 1);
    StepsBelow(len, r, n - 1);
    assert Regular(r, n) == Regular(r, n - 1) + [Segment(Mark(r, n - 1), Mark(r, n))];
  }

  /**
    A line exactly `n` resolutions long: the range ending at the line's end is
    emitted twice when `n >= 2` and a zero-length piece follows it.
  */
  lemma ExactMultipleLayout(r: real, n: nat)
    requires 0.0 < r && 1 <= n
    ensures var len := Mark(r, n);
      LineSegments(len, r)
        == Regular(r, n) + (if n >= 2 then [Segment(Mark(r, n - 1), len)] else []) + [Segment(len, len)]
  {
    var len := Mark(r, n);
    ExactMultipleSteps(r, n);
    var last := [Segment(Mark(r, n - 1), len), Segment(len, len)];
    assert LineSegments(len, r) == Steps(len, r, n - 1) + last;
    assert Regular(r, n) == Regular(r, n - 1) + [Segment(Mark(r, n - 1), len)];
    if n >= 2 {
      var prev := [Segment(Mark(r, n - 2), Mark(r, n - 1)), Segment(Mark(r, n - 1), len)];
      assert Steps(len, r, n - 1) == Regular(r, n - 2) + prev;
      assert Regular(r, n - 1) == Regular(r, n - 2) + [Segment(Mark(r, n - 2), Mark(r, n - 1))];
      var tail := prev + last;
      assert LineSegments(len, r) == Regular(r, n - 2) + tail;
      assert Regular(r, n) + [Segment(Mark(r, n - 1), len)] + [Segment(len, len)] == Regular(r, n - 2) + tail;
    } else {
      assert Steps(len, r, n - 1) == [];
    }
  }

  /** The arithmetic of an exact multiple: what the last two passes of the inner loop append. */
  lemma ExactMultipleSteps(r: real, n: nat)
    requires 0.0 < r && 1 <= n
    ensures var len := Mark(r, n);
      && len >= r
      && LineSegments(len, r) == Steps(len, r, n)
      && Steps(len, r, n) == Steps(len, r, n - 1) + [Segment(Mark(r, n - 1), len), Segment(len, len)]
      && (n >= 2 ==>
            Steps(len, r, n - 1)
              == Regular(r, n - 2) + [Segment(Mark(r, n - 2), Mark(r, n - 1)), Segment(Mark(r, n - 1), len)])
  {
    var len := Mark(r, n);
    SegCountOfMultiple(r, n);
    MarkMonotone(r, 1, n);
    MarkNext(r, n - 1);
    assert Step(len, r, n) == [Segment(Mark(r, n - 1), len), Segment(len, len)];
    if n >= 2 {
      MarkNext(r, n - 2);
      StepsBelow(len, r, n - 2);
      assert Step(len, r, n - 1) == [Segment(Mark(r, n - 2), Mark(r, n - 1)), Segment(Mark(r, n - 1), len)];
    }
  }

  /** Pieces that begin where the previous ends add up to the distance they span. */
  lemma {:induction false} ChainedTelescopes(segs: seq<Segment>)
    requires |segs| > 0 && Chained(segs)
    ensures TotalLength(segs) == segs[|segs| - 1].end - segs[0].start
  {
    if |segs| > 1 {
      var init := segs[..|segs| - 1];
      assert Chained(init);
      ChainedTelescopes(init);
    } else {
      assert segs[..0] == [];
    }
  }

  lemma RegularChained(r: real, m: nat)
    ensures Chained(Regular(r, m))
  {
    forall i | 0 <= i < m - 1
      ensures Regular(r, m)[i].end == Regular(r, m)[i + 1].start
    {
      MarkNext(r, i);
    }
  }

  /**
    Off exact multiples the pieces of a line run from 0 to its length without
    gap or overlap, sum to its length, every piece but the last is one
    resolution long and the last is shorter.
  */
  lemma NonMultipleCovers(len: Length, r: real)
    requires 0.0 < r && Mark(r, SegCount(len, r)) != len
    ensures var segs := LineSegments(len, r);
      && Covers(segs, len)
      && TotalLength(segs) == len
      && (forall i :: 0 <= i < |segs| - 1 ==> SegLength(segs[i]) == r)
      && 0.0 < SegLength(segs[|segs| - 1]) <= r
  {
    if len < r {
      ShortLineCovers(len, r);
    } else {
      LongLineCovers(len, r);
    }
  }

  /** The single piece of a short line spans it, and is not empty since the line is not. */
  lemma ShortLineCovers(len: Length, r: real)
    requires 0.0 < r && len < r && Mark(r, SegCount(len, r)) != len
    ensures var segs := LineSegments(len, r);
      && segs == [Segment(0.0, len)]
      && Covers(segs, len)
      && TotalLength(segs) == len
      && 0.0 < len
  {
    var segs := LineSegments(len, r);
    DivPos(len, r);
    DivBelow(len, r, r);
    assert r / r == 1.0;
    assert SegCount(len, r) == 0;
    assert Mark(r, 0) == 0.0;
    assert TotalLength(segs) == TotalLength([]) + SegLength(Segment(0.0, len));
  }

  /** Full ranges and the tail of a longer line chain from 0 to its end. */
  lemma LongLineCovers(len: Length, r: real)
    requires 0.0 < r <= len && Mark(r, SegCount(len, r)) != len
    ensures var segs := LineSegments(len, r);
      && Covers(segs, len)
      && TotalLength(segs) == len
      && (forall i :: 0 <= i < |segs| - 1 ==> SegLength(segs[i]) == r)
      && 0.0 < SegLength(segs[|segs| - 1]) <= r
  {
    var segs := LineSegments(len, r);
    var n := SegCount(len, r);
    NonMultipleLayout(len, r);
    RegularChained(r, n);
    assert Regular(r, n)[n - 1].end == Mark(r, n);
    assert Chained(segs);
    assert segs[0].start == 0.0;
    ChainedTelescopes(segs);
    RegularLengths(r, n);
  }

  /** Every full range is exactly one resolution long. */
  lemma RegularLengths(r: real, n: nat)
    ensures forall i :: 0 <= i < n ==> SegLength(Regular(r, n)[i]) == r
  {
    forall i | 0 <= i < n
      ensures SegLength(Regular(r, n)[i]) == r
    {
      MarkNext(r, i);
    }
  }


  /** Output order follows input line order: the pieces of a network are those of its parts, in turn. */
  lemma {:induction false} SplitAppend(a: seq<Length>, b: seq<Length>, r: real)
    requires r != 0.0
    ensures Split(a + b, r) == Split(a, r) + Split(b, r)
    decreases |b|
  {
    if b == [] {
      assert a + b == a;
    } else {
      var last := |b| - 1;
      var ab := a + b;
      assert ab[..|ab| - 1] == a + b[..last];
      assert ab[|ab| - 1] == b[last];
      assert Split(ab, r) == Split(a + b[..last], r) + LineSegments(b[last], r);
      SplitAppend(a, b[..last], r);
      assert Split(b, r) == Split(b[..last], r) + LineSegments(b[last], r);
    }
  }

  /** With a negative resolution `seg_count` is never positive, so every line is dropped. */
  lemma {:induction false} NegativeResolutionDropsAll(lines: seq<Length>, r: real)
    requires r < 0.0
    ensures Split(lines, r) == []
    decreases |lines|
  {
    if lines != [] {
      var len := lines[|lines| - 1];
      DivPos(len, -r);
      assert len / r == -(len / -r);
      assert SegCount(len, r) <= 0;
      NegativeResolutionDropsAll(lines[..|lines| - 1], r);
    }
  }

  /** The example of a 10-long line at resolution 4: pieces of length 4, 4 and 2. */
  lemma TenAtFour()
    ensures LineSegments(10.0, 4.0) == [Segment(0.0, 4.0), Segment(4.0, 8.0), Segment(8.0, 10.0)]
  {
    SegCountBounds(10.0, 4.0);
    assert SegCount(10.0, 4.0) == 2;
    NonMultipleLayout(10.0, 4.0);
  }

  // ---------------------------------------------------------------------
  // Lines whose length is an exact multiple of the resolution

  lemma {:induction false} TotalLengthAppend(a: seq<Segment>, b: seq<Segment>)
    ensures TotalLength(a + b) == TotalLength(a) + TotalLength(b)
    decreases |b|
  {
    if b == [] {
      assert a + b == a;
    } else {
      var last := |b| - 1;
      assert (a + b)[..|a + b| - 1] == a + b[..last];
      TotalLengthAppend(a, b[..last]);
    }
  }

  lemma RegularTotal(r: real, m: nat)
    requires 1 <= m
    ensures TotalLength(Regular(r, m)) == Mark(r, m)
  {
    RegularChained(r, m);
    ChainedTelescopes(Regular(r, m));
  }

  /**
    As written, a line of exactly `n >= 2` resolutions is not covered once:
    its pieces overlap (the last full range repeats) and their lengths sum to
    one resolution more than the line; for every exact multiple the last
    piece has length zero.
  */
  lemma ExactMultipleOverlaps(r: real, n: nat)
    requires 0.0 < r && 1 <= n
    ensures var len := Mark(r, n);
      var segs := LineSegments(len, r);
      && |segs| >= 2
      && SegLength(segs[|segs| - 1]) == 0.0
      && (n >= 2 ==> !Covers(segs, len) && TotalLength(segs) == len + r)
  {
    var len := Mark(r, n);
    ExactMultipleLayout(r, n);
    var segs := LineSegments(len, r);
    if n >= 2 {
      MarkNext(r, n - 1);
      assert segs[n - 1] == Segment(Mark(r, n - 1), Mark(r, n));
      assert segs[n] == Segment(Mark(r, n - 1), len);
      assert segs[n - 1].end != segs[n].start;
      RegularTotal(r, n);
      TotalLengthAppend(Regular(r, n), [Segment(Mark(r, n - 1), len)]);
      TotalLengthAppend(Regular(r, n) + [Segment(Mark(r, n - 1), len)], [Segment(len, len)]);
      assert TotalLength([Segment(Mark(r, n - 1), len)]) == r;
      assert TotalLength([Segment(len, len)]) == 0.0;
    }
  }

  /** A line of length 8 at resolution 4 yields [0,4], [4,8], [4,8], [8,8]. */
  lemma EightAtFour()
    ensures LineSegments(8.0, 4.0)
         == [Segment(0.0, 4.0), Segment(4.0, 8.0), Segment(4.0, 8.0), Segment(8.0, 8.0)]
  {
    assert Mark(4.0, 2) == 8.0;
    ExactMultipleLayout(4.0, 2);
    assert Regular(4.0, 2) == [Segment(0.0, 4.0), Segment(4.0, 8.0)];
  }

  /**
    The evident intent of the loop: full ranges up to the last whole
    resolution, then the remainder exactly once, even when it is empty
    because the line is an exact multiple of the resolution.
  */
  function IntendedLineSegments(len: Length, r: real): seq<Segment>
    requires 0.0 < r
  {
    if len < r then [Segment(0.0, len)]
    else
      var n := SegCount(len, r);
      Regular(r, n) + [Segment(Mark(r, n), len)]
  }

  /**
    The corrected pieces cover the line once, in order, with total length
    `len`; none is longer than the resolution, only the last may be empty,
    and at an exact multiple the empty tail appears once.
  */
  lemma IntendedCovers(len: Length, r: real)
    requires 0.0 < r
    ensures var segs := IntendedLineSegments(len, r);
      && Covers(segs, len)
      && TotalLength(segs) == len
      && (forall i :: 0 <= i < |segs| ==> 0.0 <= SegLength(segs[i]) <= r)
      && (forall i :: 0 <= i < |segs| - 1 ==> 0.0 < SegLength(segs[i]))
      && (r <= len && Mark(r, SegCount(len, r)) == len ==>
            segs == Regular(r, SegCount(len, r)) + [Segment(len, len)])
  {
    var segs := IntendedLineSegments(len, r);
    if len < r {
      ChainedTelescopes(segs);
    } else {
      var n := SegCount(len, r);
      SegCountBounds(len, r);
      RegularChained(r, n);
      RegularLengths(r, n);
      assert segs == Regular(r, n) + [Segment(Mark(r, n), len)];
      assert Regular(r, n)[n - 1].end == Mark(r, n);
      assert Chained(segs);
      ChainedTelescopes(segs);
    }
  }

  /** The corrected segmentation of a line of length 8 at resolution 4: [0,4], [4,8], [8,8]. */
  lemma IntendedEightAtFour()
    ensures IntendedLineSegments(8.0, 4.0) == [Segment(0.0, 4.0), Segment(4.0, 8.0), Segment(8.0, 8.0)]
  {
    SegCountOfMultiple(4.0, 2);
    assert Mark(4.0, 2) == 8.0;
    assert Regular(4.0, 2) == [Segment(0.0, 4.0), Segment(4.0, 8.0)];
  }

  lemma IntendedAgreesOffMultiples(len: Length, r: real)
    requires 0.0 < r && Mark(r, SegCount(len, r)) != len
    ensures LineSegments(len, r) == IntendedLineSegments(len, r)
  {
    if r <= len {
      NonMultipleLayout(len, r);
      SegCountBounds(len, r);
      assert Mark(r, SegCount(len, r)) < len;
    } else {
      assert IntendedLineSegments(len, r) == [Segment(0.0, len)];
    }
  }
}
