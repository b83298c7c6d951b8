# gaps: candidate arrangements and the generational loop, in Dafny

This project models the core of a genetic-algorithm jigsaw solver. The solver rebuilds an
image from shuffled square pieces.

- `models.dfy` (module `Models`) models an *individual*, the candidate arrangement. It holds
  the pieces in row-major order over a `rows` x `columns` grid, a map from piece id to
  position, and a fitness that is unset when the individual is built. The model covers
  construction (a copy of the pieces, shuffled the way numpy shuffles), the id map, row
  access with Python slicing, lookup by id, and `edge`, the neighbour lookup in the four
  directions `"T"`, `"R"`, `"D"` and `"L"`.
- `genetic_algorithm.dfy` (module `GeneticAlgorithm`) models the loop of `start_evolution` as
  a pure step function over a state record. Each individual is reduced to its fitness value.
  Each generation carries the elite over, adds one child per selected parent pair, and takes
  the fittest. It then updates the best score and the stagnation counter. The loop stops when
  the counter reaches `TERMINATION_THRESHOLD` (10) or when the generation cap is reached.
- `pyseq.dfy` (module `PySeq`) holds the Python built-ins the code relies on. These are
  slicing with negative or out-of-range bounds, `sorted`, and `max`.
- `wrappers.dfy` (module `Wrappers`) holds `Option` and `Result`. `None` stands for Python's
  `None`, and for the `float("-inf")` that the best score starts from. `Failure` stands for a
  raised `KeyError`.

Randomness becomes a parameter. The shuffle takes numpy's random draws as an argument.
Parent selection and crossover are function-valued fields of `Config`. They receive the
generation number and the pair's position in place of the random state. The loop's result is
compared with independent reference definitions: `MaxSoFar` is the best score after a list
of per-generation fittest values, and `StagnantGenerations` is the set of generations that
did not beat some earlier generation.

Where the program's own text says more than its code does, the model follows the code:

- On stopping, the loop prints "There was no improvement for {} generations"
  (gaps/genetic_algorithm.py:73), which reads as ten generations in a row. The counter is never
  reset when a generation improves (lines 66-69), so the run stops after ten non-improving
  generations in total (`GenerationStep`, `StagnantGenerations`).
- The docstring of `_get_elite_individuals` (line 90) promises the `elites` fittest
  individuals. With `elites == 0` it returns the whole sorted population, because `[-0:]` is
  `[0:]`. With an elite size of 0 the next population therefore never shrinks, and it grows
  whenever selection returns at least one pair (`EliteSpec`, `NextPopulationSpec`).
- The comment at line 64 calls the partial population a fraction of the population. The
  `[-1:]` slice at line 95 always yields exactly one member (`BestSpec`).

The loop returns the fittest of the last generation it evaluated (lines 75 and 87). With a
non-negative elite size this is also the best score it recorded (`ElitistRunReturnsBest`).

## Model

| member | source | states |
|---|---|---|
| Models.NewIndividual | solver/models.py:23-33 | The new individual's pieces are a permutation of the input (the same multiset). They are exactly the input when `shuffle` is false. Unique ids stay unique. The fitness is unset. The id map is built from the arranged pieces, so a full grid gives a well-formed individual. |
| Models.Shuffle | solver/models.py:29-30 | numpy's Fisher-Yates shuffle, driven by valid random draws, only reorders: same length, same multiset, and distinct elements stay distinct. |
| Models.IdMap | solver/models.py:32-33 | The map's keys are exactly the ids present. Each id maps to a position holding that id, and no later position holds it (a later index overwrites an earlier one). |
| Models.LocatesInverts | solver/models.py:32-33 | With unique ids, a map that locates every id inverts the arrangement: `m[pieces[i].id] == i` for every position `i`. |
| Models.PieceById | solver/models.py:42-43 | `piece_by_id(x)` succeeds exactly when some piece has id `x`, and then returns a piece of the arrangement with id `x`. With unique ids it returns the piece at that position. Otherwise it fails with `KeyError`. |
| Models.Row | solver/models.py:35-36 | For `0 <= r < rows`, `self[r]` has `columns` pieces: those of grid row `r`, in column order. For `-rows <= r <= -2`, Python's negative slicing yields row `rows + r`. For `r >= rows`, `r == -1` or `r < -rows` it is empty. |
| Models.RowsRebuildPieces | solver/models.py:35-36 | Concatenating rows `0 .. k-1` gives the first `k * columns` pieces, so reading every row in order rebuilds the arrangement. |
| Models.Side | solver/models.py:53-62 | The orientation strings `edge` tests name the four sides: "T" is the top, "R" the right, "D" the bottom and "L" the left side, and no other string names a side. |
| Models.NeighbourIndex | solver/models.py:53-63 | `edge`'s test and index arithmetic for a side, from position `i`, land on the neighbouring grid cell (row above, column right, row below, column left). When that cell is off the grid the test fails, so the lookup never wraps to another row. |
| Models.Edge | solver/models.py:50-63 | `edge(piece, o)` fails with `KeyError` exactly when `piece` is absent. Otherwise it returns the id of the piece in the neighbouring cell for "T"/"R"/"D"/"L", and `None` when that cell is outside the grid or `o` is any other string. |
| Models.OppositeSides | solver/models.py:50-63 | With unique ids, the neighbour of `a` on one side is `b` exactly when the neighbour of `b` on the opposite side is `a`. |
| Models.RightLeftInverse | solver/models.py:56-63 | With unique ids, `edge(a, "R") == b` exactly when `edge(b, "L") == a`. |
| Models.DownTopInverse | solver/models.py:53-60 | With unique ids, `edge(a, "D") == b` exactly when `edge(b, "T") == a`. |
| Models.TopLeftCorner | solver/models.py:50-63 | In a grid at least 2 x 2, the top-left piece has no neighbour above or to the left. Its right neighbour is the piece at (0, 1) and the piece below it is the one at (1, 0). |
| PySeq.Sort | gaps/genetic_algorithm.py:91 | `sorted` returns an ascending permutation of its input. |
| PySeq.Max | gaps/genetic_algorithm.py:95 | `max` of a non-empty list is one of its members and bounds all of them. |
| GeneticAlgorithm.EliteSpec | gaps/genetic_algorithm.py:89-91 | The elite is ascending and drawn from the population. For `1 <= k <= n` it has `k` members, each at least as fit as every individual left out. For `k == 0` or `k >= n` it is the whole population. For negative `k` it drops the `-k` least fit. |
| GeneticAlgorithm.BestSpec | gaps/genetic_algorithm.py:93-95 | On a non-empty population it returns a member of maximal fitness, together with a one-element list holding that same fitness. On an empty population it gives `None` (the `ValueError` of `max`). |
| GeneticAlgorithm.OffspringSpec | gaps/genetic_algorithm.py:58-62 | One child per selected pair, in pair order: child `k` is the crossover of pair `k`. |
| GeneticAlgorithm.NextPopulationSpec | gaps/genetic_algorithm.py:50-62 | The next population is the elite followed by the children. Its length is the elite size plus the number of pairs. |
| GeneticAlgorithm.Step | gaps/genetic_algorithm.py:47-76 | A generation fails exactly on an empty population. A generation that continues advances the generation number by one. |
| GeneticAlgorithm.GenerationStep | gaps/genetic_algorithm.py:64-76 | The best score becomes the larger of itself and the generation's fittest, so it never decreases; from minus infinity the first generation always records it. The counter rises by exactly one when the fittest is no better than the best, and is never reset. The run stops, returning that fittest, exactly when the counter reaches 10. Otherwise the population is replaced by the next one. |
| GeneticAlgorithm.StagnantAppend | gaps/genetic_algorithm.py:66-69 | A further generation is stagnant exactly when its fittest does not beat the best so far, and it leaves the earlier generations' verdicts unchanged. |
| GeneticAlgorithm.StepTracks | gaps/genetic_algorithm.py:64-76 | A generation moves `best_fitness_score` and `termination_counter` as appending its fittest value moves `MaxSoFar` and the stagnant count. It stops the run exactly when that count reaches the threshold. |
| GeneticAlgorithm.RunFrom | gaps/genetic_algorithm.py:43-87 | From a state that matches the reference definitions, the loop evaluates at most the generation cap. It returns the fittest of the last evaluated generation, stops early exactly when the stagnant count reaches 10, and otherwise runs to the cap. |
| GeneticAlgorithm.RunStopsAtThreshold | gaps/genetic_algorithm.py:66-74 | Before the last evaluated generation the stagnant count is always below 10: the `==` test cannot be skipped. |
| GeneticAlgorithm.Evolution | gaps/genetic_algorithm.py:43-87 | `start_evolution` evaluates at most `max(generations, 0)` generations. It returns the fittest of the last one (`None` when there were none). It stops early exactly when 10 generations in total failed to beat an earlier one, and the count never passes 10. It raises only on an empty population, before the cap. |
| GeneticAlgorithm.ElitismKeepsFittest | gaps/genetic_algorithm.py:52-54 | With a non-negative elite size the next population is non-empty and contains an individual at least as fit as the current fittest. |
| GeneticAlgorithm.ElitistTrajectory | gaps/genetic_algorithm.py:50-64 | With a non-negative elite size the per-generation fittest values never decrease, and the first is the initial population's maximum. |
| GeneticAlgorithm.ElitistRunReturnsBest | gaps/genetic_algorithm.py:64-87 | With a non-negative elite size, the value `start_evolution` returns is the best score it recorded. |

## Left out

- gaps/plot.py: figure drawing and image files, which are pure output.
- The printing, directory creation and file deletion in `start_evolution`
  (gaps/genetic_algorithm.py:30-39, 48, 72-73, 78-84): console and filesystem I/O.
- `GeneticAlgorithm.__init__` and `ImageAnalysis.analyze_image`: cutting the image into pieces
  and building the initial population use `image_helpers`, `gaps.individual` and
  `gaps.image_analysis`, which are not part of this model. The initial population is a
  parameter of `Evolve`.
- `roulette_selection` and `Crossover`: not part of this model. They are the opaque `select`
  and `cross` fields of `Config`.
- Fitness computation and caching in `gaps.individual`: not part of this model. Each
  individual is its fitness value. Floating-point values are modelled as integers, since the
  loop only compares them. NaN and infinite fitness values are not modelled.
- `Individual.to_image` (solver/models.py:45-48): image assembly through `helpers`, which is
  not part of this model.
- `Individual.contains_edge` (solver/models.py:65-67): calls `self.edges`, which does not
  exist, so every call raises.
- `Individual.piece_size` (solver/models.py:38-40) and `Piece.size`, `Piece.shape`,
  `Piece.__getitem__`: pixel data. A piece is modelled as its id only.
- `Individual.__getitem__` with a slice key: only integer keys are modelled.
- Models.Edge: requires a well-formed individual: a full grid with `columns > 0`, and an id
  map that sends each id present to a position holding it. A constructor call establishes
  this when its pieces fill a `rows` x `columns` grid with `columns > 0` (`NewIndividual`).
  For other individuals the source still answers, and those answers are not modelled. With
  `columns == 0`, `edge(p, "T")` returns `p`'s own id. On a grid that is not full, `"D"` can
  return a piece of a partly filled row: with 5 pieces on a 2 x 3 grid,
  `edge(pieces[1].id, "D")` is `pieces[4].id`. Other such individuals make `edge` raise
  `IndexError` or `ZeroDivisionError`.
- Models.PieceById: requires the id map to locate every id present, as the map every
  constructor call builds does.
- Models.RightLeftInverse: stated for individuals with unique piece ids. With duplicate ids
  the map keeps only the last position of an id, and the inverse property fails.
- Models.DownTopInverse: stated for unique piece ids, for the same reason.
- Python's `max` with a key returns the first of several equally fit individuals, and
  `sorted` is stable. With individuals reduced to fitness values, which of them is returned
  is not observable.
