# python-analytic in Dafny

A verified model of the computational parts of three small Python labs.

- **Gap filling (lab2/main.py).** A series of integer positions with real values is given, and some values are missing. The source marks a missing value with NaN and tests it with `v != v`. Two passes fill the gaps, each visiting them left to right over a copy of the series:
  - `linear_interpolation` draws the chord between the nearest known neighbours in the working copy;
  - `quadratic_interpolation` fits `a*x^2 + b*x + c` by Cramer's rule through three originally known points and evaluates it at the gap.
  
  Both passes also return a provenance record per filled index. Modules `Series`, `LinearFill` and `QuadraticFill` cover this part.
- **Rock-paper-scissors bot (lab4/main.py).** This covers the rule that decides a round, the display names of the choices, and the per-user win/loss/draw table the callback handler keeps. Module `RockPaperScissors` covers this part.
- **Helpers (lab3/main.py).** This covers:
  - the four-operation `calculate`;
  - the sliding-window `rate_limit` wrapper and the module's five-send demonstration;
  - `cache_decorator` and the memoised `fibonacci` it wraps, with the repeated-call demonstration.
  
  Module `Helpers` covers this part.

Missing values are `Cell.Missing`, and known values are `Cell.Known(v)` with `v: real`. Each pass is a method with the source's loop. The method updates a local `seq` that starts as a copy of the input, as `y.copy()` does. It is proved equal, index by index, to a reference definition computed from the original series:

- `LinearAt` for the linear pass;
- `QuadraticAt` for the quadratic pass.

The per-gap loop body is a method of its own, `LinearGap` or `FitGap`.

The main results are these:

- **Linear pass.** The left-to-right fill reads the left neighbour from the working copy, which may be a gap filled a moment earlier. This still gives exactly the chord through the gap's nearest *original* known neighbours, because the chord is collinear (`ChordCollinear`). A gap is filled iff it has known values on both sides (`LinearFilledIff`), and, for strictly increasing positions, the value lies between those two values (`LinearValueBetween`).
- **Quadratic pass.**
  - Each side list is the pooled indices on that side, put in order of distance from the gap by a stable insertion sort (`SortByDistance`). Like Python's `sorted`, it keeps indices at equal distance in pool order (`SortStable`).
  - The candidate selection (up to two nearest per side, then padding from the left list first) is a `while` loop. It is proved to produce a duplicate-free list whose first three entries are a closed form (`SelectCandidates`, `Used`, `UsedCases`).
  - `det` is the Vandermonde determinant, so it vanishes iff two positions coincide (`DetZeroIff`).
  - The solved parabola passes through the three points (`CramerFits`).
  - With pairwise different positions, a gap is filled iff the series has at least three known values (`QuadraticFillsIff`). Gaps at either end are then extrapolated from one side.
- **Game.** Exactly one of win, lose and draw holds for every pair of choices. Swapping the players swaps winning and losing. After any history of rounds, with different users' rounds interleaved, every user's counters are their old counters plus the numbers of their own rounds won, lost and drawn (`ReplayCounts`).
- **Helpers.**
  - The calculator's error cases are exact.
  - The limiter never stores more than `max_calls` timestamps. Five sends within one period admit the first three and reject the last two.
  - The memoised Fibonacci returns the plain recursive value. After `fibonacci(10)` the cache already holds the entries for 10 and 8, so the repeated call and both calls of `fibonacci(8)` are answered from it and leave it unchanged.

Some behaviour of the code that is easy to miss:

- When the quadratic fit is impossible, the gap is skipped (lab2/main.py:90-104). There is no linear fallback.
- The linear pass reads its left neighbour from the working copy, so a run of gaps is filled progressively. For the chord formula this gives the same values as a fill from originally known values only (`ChordCollinear`, `LiveNeighbours`).
- The linear record lists `(x[left], y[left])` from the *original* series (lab2/main.py:43). That value is missing when the left neighbour was itself a gap, and `LinearRecordAt` keeps it so.
- The quadratic pass takes its candidate pool once, from the original series (lab2/main.py:60). Filled gaps never become quadratic candidates.

## Model

| member | source | states |
|---|---|---|
| Series.PrevKnown | lab2/main.py:20-22 | the result is the greatest index below `i` holding a known value, or -1, and every index strictly between holds a missing value |
| Series.NextKnown | lab2/main.py:24-26 | the result is the least index above `i` holding a known value, or the length, and every index strictly between holds a missing value |
| Series.FindNearestValidIndices | lab2/main.py:19-28 | the two walking loops return exactly the nearest known index to the left (or -1) and to the right (or the length) |
| Series.PrevKnownFound | lab2/main.py:20-22 | the left search finds an index iff some value below `i` is known |
| Series.NextKnownFound | lab2/main.py:24-26 | the right search stops inside the series iff some value above `i` is known |
| LinearFill.Chord | lab2/main.py:39 | the chord through `(xl, yl)` and `(xr, yr)` takes the value `yl` at `xl` and `yr` at `xr` |
| LinearFill.LinearAt | lab2/main.py:34-39 | a known value is kept; a gap becomes known iff it is bracketed by known values on both sides |
| LinearFill.LinearRecordAt | lab2/main.py:41-47 | the record names the gap's position, index `i - 1` as left point with its original value (known iff it is the nearest known index), the nearest known index to the right with its known value, and the value the fill writes |
| LinearFill.LinearGap | lab2/main.py:35-47 | for a gap, once earlier gaps hold their final values, a record is produced iff the gap is bracketed, and it is the reference record (position, neighbour points, value) |
| LinearFill.LinearInterpolation | lab2/main.py:30-53 | the returned series equals the reference fill at every index; the info map's keys are exactly the bracketed gaps, each with its reference record |
| LinearFill.LiveNeighbours | lab2/main.py:35-39 | on the working copy the right neighbour is the original one, a left neighbour exists iff the original has one, and when the gap is bracketed the left neighbour is index `i - 1` and the chord from it equals the chord through the original neighbours |
| LinearFill.ChordSlope | lab2/main.py:39 | the chord formula equals intercept plus slope times offset |
| LinearFill.ChordCollinear | lab2/main.py:34-39 | interpolating between a point of a chord and its right end stays on that chord, so filling a run of gaps left to right gives the chord through the run's original ends |
| LinearFill.ChordBetween | lab2/main.py:39 | for a position strictly between the two ends, the chord value lies between the two end values |
| LinearFill.LinearFilledIff | lab2/main.py:35-39 | a gap is filled iff some value below it and some value above it are known; leading and trailing gaps stay missing |
| LinearFill.LinearValueBetween | lab2/main.py:36-39 | for strictly increasing positions, a filled value lies between the values of the two known neighbours bracketing the gap |
| QuadraticFill.ValidIndices | lab2/main.py:60 | the pool is strictly increasing, in range, and holds exactly the indices of known values |
| QuadraticFill.Below | lab2/main.py:65 | holds exactly the pooled indices at positions below the gap, strictly increasing when the pool is |
| QuadraticFill.Above | lab2/main.py:69 | holds exactly the pooled indices at positions above the gap, strictly increasing when the pool is |
| QuadraticFill.InsertByDistance | lab2/main.py:64-71 | inserting one index into a list adds exactly that index to its multiset |
| QuadraticFill.InsertMembers | lab2/main.py:64-71 | after an insertion the members are the old members and the new index |
| QuadraticFill.InsertNearestFirst | lab2/main.py:64-71 | inserting into a list ordered by distance keeps it ordered by distance |
| QuadraticFill.InsertDistinct | lab2/main.py:64-71 | inserting a new index into a duplicate-free list keeps it duplicate-free |
| QuadraticFill.SortByDistance | lab2/main.py:64-71 | `sorted(..., key=distance)`: a permutation of its input, in non-decreasing distance from the gap, duplicate-free when the input is |
| QuadraticFill.InsertStable | lab2/main.py:64-71 | an insertion leaves the indices at each distance in their order and puts the new one after those at its own distance |
| QuadraticFill.SortStable | lab2/main.py:64-71 | the sort is stable: at every distance the sorted list holds the same indices in the same order as the input |
| QuadraticFill.LeftPoints | lab2/main.py:64-67 | holds exactly the pooled indices at positions below the gap, in non-decreasing distance from it, none twice for an ascending pool |
| QuadraticFill.RightPoints | lab2/main.py:68-71 | holds exactly the pooled indices at positions above the gap, in non-decreasing distance from it, none twice for an ascending pool |
| QuadraticFill.PointsNearestFirst | lab2/main.py:64-71 | with increasing positions distances on each side are pairwise different, so both side lists are in strictly increasing distance |
| QuadraticFill.FiltersPartition | lab2/main.py:65-69 | when no pooled point sits at the gap's position, the two filters together keep as many indices as the pool has |
| QuadraticFill.PointsPartition | lab2/main.py:64-71 | when no pooled point sits at the gap's position, the two sides together hold all pooled points |
| QuadraticFill.SidesDistinct | lab2/main.py:64-71 | the two side lists have no index in common and none repeated |
| QuadraticFill.Used | lab2/main.py:73-88 | the points used number the smaller of three and the number of side points |
| QuadraticFill.UsedCases | lab2/main.py:73-88 | two left and one right point when both sides allow it; otherwise the shortfall is taken from the other side, nearest first |
| QuadraticFill.UsedMembers | lab2/main.py:73-88 | every point used comes from one of the two sides |
| QuadraticFill.UsedDistinct | lab2/main.py:73-88 | the points used are pairwise different indices |
| QuadraticFill.PopLeft | lab2/main.py:81-84 | a popped left point is already a candidate iff it is one of the two nearest, otherwise it is appended |
| QuadraticFill.PopRight | lab2/main.py:85-88 | a popped right point is already a candidate iff it is one of the two nearest, otherwise it is appended |
| QuadraticFill.HeadsDistinct | lab2/main.py:73-78 | the initial candidate list (two nearest per side) has no repeated index |
| QuadraticFill.ChosenPrefix | lab2/main.py:80-88 | the candidate list after any number of pops is a prefix of the full selection order |
| QuadraticFill.ChosenPrefixLeft | lab2/main.py:80-84 | while left points are popped, the candidates are a prefix of the full selection order |
| QuadraticFill.ChosenPrefixRight | lab2/main.py:85-88 | once the left list is exhausted, the candidates are a prefix of the full selection order |
| QuadraticFill.SelectCandidates | lab2/main.py:73-88 | the padding loop returns a duplicate-free list, of length at least three iff the sides hold three points, whose first three are the reference choice |
| QuadraticFill.Det | lab2/main.py:102 | the determinant of the system, as written; its Vandermonde form and zero test are `DetVandermonde` and `DetZeroIff` |
| QuadraticFill.DetA | lab2/main.py:106 | the numerator of `a`, as written; with `DetB` and `DetC` it satisfies the three rows `CramerRow0`-`CramerRow2` |
| QuadraticFill.DetB | lab2/main.py:107 | the numerator of `b`, as written; see `CramerRow0`-`CramerRow2` |
| QuadraticFill.DetC | lab2/main.py:108 | the numerator of `c`, as written; see `CramerRow0`-`CramerRow2` |
| QuadraticFill.Eval | lab2/main.py:114 | the parabola's value at a position; `FitRow` and `CramerFits` state which points it passes through |
| QuadraticFill.Cramer | lab2/main.py:110-112 | the coefficients, each numerator divided by `det`; `CramerFits` proves the parabola passes through the three points |
| QuadraticFill.DetVandermonde | lab2/main.py:102 | `det` equals `(x0 - x1)(x0 - x2)(x1 - x2)` |
| QuadraticFill.DetZeroIff | lab2/main.py:102-104 | `det == 0` iff two of the three positions coincide |
| QuadraticFill.CramerRow0 | lab2/main.py:106-108 | the numerators satisfy the system's first row scaled by `det` |
| QuadraticFill.CramerRow1 | lab2/main.py:106-108 | the numerators satisfy the system's second row scaled by `det` |
| QuadraticFill.CramerRow2 | lab2/main.py:106-108 | the numerators satisfy the system's third row scaled by `det` |
| QuadraticFill.FitRow | lab2/main.py:110-114 | dividing a scaled row by a non-zero `det` gives a parabola through that point |
| QuadraticFill.CramerPasses | lab2/main.py:106-114 | a point satisfying a scaled row lies on the solved parabola |
| QuadraticFill.CramerFits | lab2/main.py:106-114 | for `det != 0` the solved parabola passes through all three points |
| QuadraticFill.SolveQuadratic | lab2/main.py:102-112 | the solve fails iff two of the three positions coincide |
| QuadraticFill.SolveQuadraticFits | lab2/main.py:102-114 | a successful solve gives a parabola through the three points |
| QuadraticFill.ChosenAt | lab2/main.py:60-88 | at most three points are used for a gap, each an originally known index |
| QuadraticFill.FitAt | lab2/main.py:90-124 | the reference fit through chosen indices: none for fewer than three or for a single position, otherwise the solve and its record; `FitAtSome` and `FitAtRecord` state when it succeeds and what the record holds |
| QuadraticFill.QuadraticAt | lab2/main.py:63-124 | the reference result for a gap, the fit through the points chosen from the original series; `QuadraticFillsIff` and `QuadraticRecordFits` state its properties |
| QuadraticFill.QuadraticCell | lab2/main.py:115 | the value the pass leaves at a gap: the fitted value, or missing when there is no fit |
| QuadraticFill.ChooseCandidates | lab2/main.py:64-88 | the candidate list built from the frozen pool has at least three entries iff the reference choice does, and then its first three are that choice |
| QuadraticFill.FitPoints | lab2/main.py:90-124 | the degeneracy checks and the solve over the working copy give exactly the reference fit for the three chosen indices |
| QuadraticFill.FitGap | lab2/main.py:63-124 | one iteration of the pass on the working copy returns exactly the reference result for the gap, record or none |
| QuadraticFill.QuadraticInterpolation | lab2/main.py:55-133 | known values are unchanged, each gap holds the reference value or stays missing, and the info map's keys are exactly the fitted gaps, each with its reference record |
| QuadraticFill.ChosenFacts | lab2/main.py:60-88 | for a gap whose position no known value shares, the points used number the smaller of three and the number of known values, and are pairwise different |
| QuadraticFill.FitAtSome | lab2/main.py:90-104 | with pairwise different positions a fit exists iff three points are chosen |
| QuadraticFill.QuadraticFillsIff | lab2/main.py:60-104 | with pairwise different positions a gap is filled iff the series has at least three known values |
| QuadraticFill.FitAtRecord | lab2/main.py:97-124 | a fit's record holds the three chosen points, the parabola passes through each, and the written value is the parabola at the gap |
| QuadraticFill.QuadraticRecordFits | lab2/main.py:97-124 | a filled gap's record holds three points, each an originally known sample other than the gap and on the fitted parabola, and the written value is that parabola at the gap |
| RockPaperScissors.GetResult | lab4/main.py:67-75 | draw iff the choices are equal, win iff the pair is one of the three beating pairs, lose otherwise |
| RockPaperScissors.ResultAntisymmetric | lab4/main.py:67-75 | for two different valid choices, swapping them swaps win and lose |
| RockPaperScissors.ResultCyclic | lab4/main.py:67-75 | against any valid bot choice exactly one valid choice wins and exactly one loses |
| RockPaperScissors.Translate | lab4/main.py:77-78 | a label exists iff the key is one of the three choices |
| RockPaperScissors.TranslateInjective | lab4/main.py:77-78 | different choices get different labels |
| RockPaperScissors.StatsFor | lab4/main.py:38 | a user without an entry reads as all zeros, a user with one reads that entry |
| RockPaperScissors.Tally | lab4/main.py:50-60 | the user gets an entry, only the counter matching the result grows, by one, and other users' entries are unchanged |
| RockPaperScissors.TallyCountsOneGame | lab4/main.py:50-60 | each round adds exactly one game to the user's total |
| RockPaperScissors.ReplayCounts | lab4/main.py:50-60 | after any sequence of rounds of any users, in order, each user's counters are the old counters plus the numbers of that user's rounds won, lost and drawn, and exactly the old users and the users who played have an entry |
| RockPaperScissors.ReplayFromNoEntry | lab4/main.py:50-60 | a user without an entry before the rounds ends with exactly the numbers of their own rounds won, lost and drawn |
| RockPaperScissors.Scoreboard.constructor | lab4/main.py:16 | the table starts empty |
| RockPaperScissors.Scoreboard.Lookup | lab4/main.py:38 | a user without an entry reads as all zeros, a user with one reads that entry |
| RockPaperScissors.Scoreboard.Record | lab4/main.py:50-60 | the table becomes the tally of the old table with the round |
| RockPaperScissors.Scoreboard.HandleCallback | lab4/main.py:44-65 | the round is decided by the rule, tallied into the table, and answered with both choices' labels |
| Helpers.Calculate | lab3/main.py:38-49 | fails iff the operation is unsupported or it divides by zero, reporting which; `+` and `-` results undo each other |
| Helpers.CalculateDispatch | lab3/main.py:39-47 | the four operations give the sum, difference, product and quotient |
| Helpers.CalculateAddRoundTrip | lab3/main.py:40-43 | subtracting undoes adding and adding undoes subtracting |
| Helpers.CalculateMulRoundTrip | lab3/main.py:44-47 | for a non-zero operand, dividing undoes multiplying and multiplying undoes dividing |
| Helpers.Recent | lab3/main.py:63 | the kept timestamps are exactly those inside the window, each less than a period old, each kept as many times as it was stored |
| Helpers.Admit | lab3/main.py:63-66 | a call is admitted iff fewer than `max_calls` timestamps remain in the window, and then `now` is appended |
| Helpers.AdmitKeepsBound | lab3/main.py:63-65 | the stored list never grows beyond `max_calls` |
| Helpers.AdmitKeepsWindow | lab3/main.py:63-65 | for a positive period every stored timestamp is inside the window after a call |
| Helpers.RateLimiter.constructor | lab3/main.py:52-56 | a new wrapper has no stored calls |
| Helpers.RateLimiter.Call | lab3/main.py:59-67 | one wrapped call prunes the window and admits iff there is room, keeping the bound |
| Helpers.FiveSends | lab3/main.py:101-103 | five sends within one period to a 3-per-60-seconds limiter admit the first three and reject the last two |
| Helpers.SendWithinPeriod | lab3/main.py:101-103 | at the `k`-th send no stored timestamp has left the window, so the send is admitted iff `k < 3` and the first `min(k + 1, 3)` send times are stored after it |
| Helpers.RecentKeepsAll | lab3/main.py:63 | pruning keeps every timestamp when all are inside the window |
| Helpers.Cache.constructor | lab3/main.py:77-78 | a new cache is empty |
| Helpers.Cache.Call | lab3/main.py:81-86 | the wrapper returns the function's result; a hit leaves the cache alone, a miss stores the result |
| Helpers.MemoFibonacci.constructor | lab3/main.py:90-91 | the decorated function starts with an empty cache |
| Helpers.MemoFibonacci.Call | lab3/main.py:81-86 | the wrapped call returns the Fibonacci number, caches it, and leaves the cache unchanged on a hit; every cached `n >= 2` has `n - 1` and `n - 2` cached too |
| Helpers.MemoFibonacci.Fibonacci | lab3/main.py:90-94 | the body returns the Fibonacci number (`n` itself for `n <= 1`) through cached recursive calls, leaving `n - 1` and `n - 2` cached for `n >= 2` |
| Helpers.RepeatedCalls | lab3/main.py:105-108 | `fibonacci(10)` is 55 twice and `fibonacci(8)` is 21 twice; after the first call the cache holds 10 and 8 and maps every key to its Fibonacci number, and the three later calls leave it unchanged |

## Left out

- Reading the CSV file, writing JSON and plotting (lab2/main.py `read_data`, `save_results`, `main`) are I/O and not part of this model. So are the `verbose` prints inside both passes.
- IEEE floating point is modelled by exact reals. NaN is modelled by `Cell.Missing`, and rounding is not modelled.
- LinearFill.LinearInterpolation: requires pairwise different positions (`Distinct`), and so do `LinearAt`, `LinearRecordAt`, `LinearGap`, `LiveNeighbours` and `LinearFilledIff`. With equal positions at a gap's two neighbours, the division at lab2/main.py:39 raises `ZeroDivisionError`, and the model does not represent that exception. Repeated positions that never meet as neighbours would not raise, but they are excluded as well.
- QuadraticFill.QuadraticFillsIff: proved for pairwise different positions only. The pass itself (`QuadraticInterpolation`) requires only equal lengths, as `read_data` (lab2/main.py:10-16) always produces. With repeated positions a gap can stay unfilled even though three values are known.
- lab4/main.py's chat plumbing is outside the model: the bot, dispatcher, keyboard, `start`/`play` handlers, the message texts and `asyncio`. The bot's `random.choice` is a parameter of `HandleCallback`.
- RockPaperScissors.HandleCallback: requires both choices to be valid, because the source's callback filter (line 44) only admits the three keys and the bot draws from them.
- The `log_decorator` around `calculate`, with its clock reads and log file, is outside the model. `calculate`'s `ValueError` and Python's `ZeroDivisionError` are `Failure` values.
- Helpers.RateLimiter.Call: the clock reading `time.time()` is the parameter `now`. The `Lock` is dropped because calls are sequential. The "limit exceeded" print is the `false` result. The wrapped function is not called; `admitted` says whether it would run.
- Helpers.Cache.Call: the cache is keyed by a single argument rather than Python's argument tuple. The wrapped function is a total Dafny function, so a raising `func` is not modelled.
- Helpers.MemoFibonacci.Fibonacci: the decorated `fibonacci` is modelled as its own class with mutually recursive `Call` and `Fibonacci`. The generic `Cache` cannot call back into itself.
- lab1/main.py is not part of this model.
