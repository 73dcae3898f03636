# Flood-risk classification core, modelled in Dafny

This project models the own logic of `functions.py` from a flood-risk
pipeline. The pipeline labels query points with a flood-risk category by
majority vote among their nearest labelled reference points. It also cuts a
road network into pieces of fixed length. The three modelled pieces are:

- **Road segmentation** (`road_split`, module `RoadSplit`, file
  `road_split.dfy`). A road line is its length `L` along its own path. A piece
  is a range `(start, end)` of distances along that line. The method
  `RoadSplit` is the source's outer loop over the lines. `AppendLine` is the
  body of that loop, including the inner loop over `count = 1..floor(L/r)`.
  Both append to the same output list. `RoadSplit` is proved equal to the
  specification function `SplitRoads`. The lemmas say what that output is:
  - a line shorter than the resolution is kept whole;
  - otherwise it becomes `n` full ranges followed by a shorter tail;
  - exact multiples behave differently (see Findings);
  - lines keep their input order.
- **k-nearest majority classifier** (`knearest`, module `KNearest`, file
  `knearest.dfy`). The method `KNearest` loops over the queries. The loop
  body `ClassifyQuery` uses pure helpers: `Candidates` is the window filter,
  `WithDist` builds the `dist` column, `SortByDist` sorts it, the first `k`
  entries are kept, and `Vote` picks the label. The label is written into the
  risk column, a list the loop updates at the query's own position. If any query cannot be classified, the call fails at
  the first such query and returns no result.
- **Risk ordinal** (`level_to_value`, module `RiskLevel`, file
  `risk_level.dfy`). This maps `"Very Low"`, `"Low"`, `"Medium"` and `"High"`
  to 1..4 and every other string to 0.

`wrappers.dfy` holds the `Result`/`Option` datatypes used for error returns.

The code does not validate its arguments, and the model follows it:
- When a query's window holds fewer than `k` references, the code raises; it
  does not degrade gracefully.
- With `k < 1`, `Counter([]).most_common(1)` is empty, so `risk[0]` raises.
  The code has no separate configuration check for this.
- A non-positive resolution is not rejected up front. A zero resolution
  raises `ZeroDivisionError` on the first line. A negative resolution makes
  `floor(L/r) <= 0`, so every line yields nothing (`NegativeResolutionDropsAll`).

## Model

| member | source | states |
|---|---|---|
| `RoadSplit.RoadSplit` | functions.py:38-56 | The nested loops return exactly `SplitRoads`: failure when the resolution is zero and there is at least one line (the division raises), otherwise every line's pieces, line after line |
| `RoadSplit.AppendLine` | functions.py:45-54 | One pass of the line loop appends exactly that line's pieces `LineSegments(L, r)` to the output built so far, leaving the earlier output in place |
| `RoadSplit.ShortLineKept` | functions.py:45-46 | A line shorter than the resolution is emitted unchanged as exactly one piece `[0, L]` |
| `RoadSplit.SegCountBounds` | functions.py:48 | `seg_count = floor(L/r)` full steps fit in the line and one more does not; `seg_count >= 1` once `L >= r` |
| `RoadSplit.StepsBelow` | functions.py:49-51 | While the remainder after `count` steps exceeds one resolution, each pass appends exactly the range `[(count-1)r, count·r]` |
| `RoadSplit.NonMultipleLayout` | functions.py:48-54 | For `L >= r` not a multiple of `r`: the pieces are the `n = floor(L/r)` ranges `[(c-1)r, cr]` followed by the tail `[nr, L]`, with `0 < L - nr < r` |
| `RoadSplit.NonMultipleCovers` | functions.py:44-54 | Off exact multiples the pieces run from 0 to `L` in order, each starting where the previous ends, and their lengths sum to `L`. Every piece but the last has length `r`; the last has positive length of at most `r` |
| `RoadSplit.TenAtFour` | functions.py:48-54 | A line of length 10 at resolution 4 yields `[0,4], [4,8], [8,10]` |
| `RoadSplit.ExactMultipleLayout` | functions.py:49-54 | For `L = n·r`: the pieces are the `n` full ranges, then `[(n-1)r, L]` once more when `n >= 2`, then the zero-length `[L, L]` |
| `RoadSplit.ExactMultipleOverlaps` | functions.py:49-54 | For `L = n·r` the last piece has length 0. For `n >= 2` the pieces overlap, so they do not cover `[0, L]` once, and their lengths sum to `L + r` |
| `RoadSplit.EightAtFour` | functions.py:49-54 | A line of length 8 at resolution 4 yields `[0,4], [4,8], [4,8], [8,8]` |
| `RoadSplit.SplitAppend` | functions.py:43-55 | Output order follows input line order: the pieces of `a + b` are those of `a` followed by those of `b` |
| `RoadSplit.NegativeResolutionDropsAll` | functions.py:45-49 | With a negative resolution no line is shorter than it and `seg_count <= 0`, so the output is empty |
| `RoadSplit.IntendedCovers` | functions.py:48-54 | The corrected segmentation covers `[0, L]` once, in order, with total length `L`. Every piece is at most `r` long and only the last may have length 0. At an exact multiple the pieces are the `n` full ranges followed by `[L, L]` exactly once |
| `RoadSplit.IntendedEightAtFour` | functions.py:48-54 | The corrected segmentation of a line of length 8 at resolution 4 is `[0,4], [4,8], [8,8]` |
| `RoadSplit.IntendedAgreesOffMultiples` | functions.py:48-54 | Off exact multiples the code as written and the corrected segmentation give the same pieces |
| `KNearest.KNearest` | functions.py:58-76 | Fails iff some query has `k < 1` or fewer than `k` window candidates; the error names the first such query, and all earlier queries were classifiable. On success the output has one entry per query, in order, each with its own position and the label `RiskOf` of that query |
| `KNearest.ClassifyQuery` | functions.py:66-74 | One pass of the query loop yields a label exactly when the query is classifiable (`k >= 1` and at least `k` window candidates), and that label is `RiskOf` the query |
| `KNearest.Candidates` | functions.py:66 | The `.cx` window filter: the references inside the closed window, taken in reference order, never more than there are references. Membership and multiplicity are stated by `CandidatesExact` |
| `KNearest.CandidatesExact` | functions.py:66 | The candidates are exactly the references with `x` in `[qx-d, qx+d]` and `y` in `[qy-d, qy+d]`, each as often as among the references |
| `KNearest.WiderWindowKeepsCandidates` | functions.py:66 | For window half-widths `0 <= d <= d'`, widening the window never removes a candidate, so the candidate count never shrinks. The lemma also holds for negative `d` in the model, where the window is empty; that range is not claimed for the source (see Left out) |
| `KNearest.WithDist` | functions.py:67 | The `dist` column has one entry per candidate, in order, holding that candidate and its squared distance to the query |
| `KNearest.Insert` | functions.py:68 | Insertion adds exactly the inserted entry to the list: the result is a permutation of the list plus that entry |
| `KNearest.InsertSorted` | functions.py:68 | Inserting into a list sorted by `dist` keeps it sorted |
| `KNearest.SortByDist` | functions.py:68 | The sorted list is a permutation of the input in non-decreasing `dist` |
| `KNearest.Nearest` | functions.py:68-69 | `sort_values` by `dist` followed by `[:k]`: exactly `k` entries of the ranked candidates. That they are sorted, drawn from the candidates and the closest ones is stated by `NearestSelection` |
| `KNearest.Labels` | functions.py:69-72 | The flattened `risklist`: one label per selected neighbour, in distance order, each the risk label of that neighbour |
| `KNearest.PrefixIsClosest` | functions.py:68-69 | In a list sorted by `dist`, every entry of the first `k` is no farther than every entry outside them |
| `KNearest.NearestSelection` | functions.py:67-69 | The selection holds `k` candidates with their true squared distance, in non-decreasing distance. Each selected candidate is at least as close as every candidate left out |
| `KNearest.MostCommonAt` | functions.py:73-74 | Scanning labels and switching only to a strictly more frequent one ends on a most frequent label, and every earlier position holds a strictly less frequent one |
| `KNearest.Vote` | functions.py:73-74 | `Counter(...).most_common(1)[0][0]`: the result occurs among the labels and is most frequent. Among equally frequent labels it is the one met first in distance order |
| `KNearest.VoteUnique` | functions.py:73-74 | Only one label is most frequent under that first-position tie-break, and it is the vote |
| `KNearest.HeadIsClosest` | functions.py:67-69 | The first entry after sorting by `dist` is a candidate at least as close as every candidate |
| `KNearest.SingleNeighbourIsNearest` | functions.py:67-75 | With `k = 1` the query takes the label of a candidate at least as close as every other candidate |
| `KNearest.TieGoesToCloserLabel` | functions.py:66-75 | References Low (0,0), High (1,0), High (0,1), query (0.1,0.1), `k = 2`, `d = 5`: the 1–1 tie goes to the closer Low |
| `RiskLevel.LevelToValue` | functions.py:78-91 | The result is in 0..4. It is 0 exactly for strings that name no category. A positive result `v` means the input names the `v`-th category in severity order |
| `RiskLevel.ValueIsSeverityRank` | functions.py:82-89 | `"Very Low"`, `"Low"`, `"Medium"`, `"High"` map to 1, 2, 3, 4 respectively |
| `RiskLevel.ValueIncreasesWithSeverity` | functions.py:82-89 | The ordinal is positive and strictly increasing across the four named categories in severity order |

## Left out

- `clip_study_area` (functions.py:9-19): every step is a call into the projection library, the buffer and the clip. There is no own logic to model.
- `create_grid` (functions.py:21-36): hex-cell lookup, ring enumeration and reprojection are library calls. The ring size is the hex library's guarantee. The only own logic is numbering the cells 0..N-1, which is not modelled.
- Geometry of road pieces: a piece is a distance range along the line. The library's `substring` walk along the vertices is not modelled, and a line kept whole is represented by the range `[0, L]`.
- Floating point and `sqrt`: lengths, coordinates and distances are exact reals, and ranking uses squared distance, which gives the same order.
- Order of equally distant candidates: the source's default sort is not guaranteed stable. `SortByDist` is defined as an insertion sort that keeps equally distant entries in input order; this is a property of the definition, not a clause of its contract, which states only the permutation and the order by `dist`. Which of two equally distant candidates is kept, and so the tie-break of the vote, follows that definition.
- `Candidates`: its contract states membership and multiplicity, not that it keeps the reference order. Its definition does keep that order.
- Window bounds: the window is the closed square `[q-d, q+d]²`, empty for a negative `d`. How the geometry library treats a box built from reversed bounds (negative `d`) or coincident bounds (`d = 0`) is not modelled.
- Dataframe mechanics are not modelled:
  - the per-id re-lookup of labels through `gridid_1` (functions.py:70) is modelled as reading the label of the selected reference, which assumes unique ids;
  - the write-back by geometry equality (functions.py:75) is modelled as a write by query position. Every query at the same location computes the same label, so equal positions receive equal labels either way.
- `KNearest.KNearest`: the source's exception (an `IndexError`) is modelled as a `Failure` naming the first query that cannot be classified. The caller's query table is untouched in both cases, because the source works on a copy.
- No I/O, concurrency or randomness is involved.

## Findings

| source | as written | input that shows it | evidently intended | confidence | as-written member | corrected member |
|---|---|---|---|---|---|---|
| functions.py:49-54 | When `L = n·r` with `n >= 2`, the else-branch fires for both `count = n-1` and `count = n`. So `[(n-1)r, L]` is appended twice and a zero-length `[L, L]` follows. With `n = 1` only the zero-length piece is added | `L = 8`, `r = 4` gives `[0,4], [4,8], [4,8], [8,8]`, whose lengths sum to 12 | The `n` full ranges followed by the trailing piece `[n·r, L]` exactly once, of length 0 at an exact multiple, covering `[0, L]` once: `[0,4], [4,8], [8,8]` | high (not executed) | `RoadSplit.ExactMultipleOverlaps` | `RoadSplit.IntendedCovers` |

`RoadSplit.RoadSplit` keeps the behaviour as written, so it models the code
as written. `IntendedLineSegments` is the corrected per-line
definition: it keeps the zero-length trailing piece at an exact multiple but
emits it once and does not repeat the last full range.
`IntendedAgreesOffMultiples` shows that the two differ only on exact
multiples.
