# ponderosa hyperparameter search, modelled in Dafny

ponderosa is a black-box hyperparameter search driver. You give it a grid of named
parameters and an evaluation callback. It then:

- walks the grid's conditions (parameter assignments) in a shuffled order, optionally
  capped at `n_iter` of them;
- writes each condition's `error` and `info` into the condition dictionary;
- appends the annotated condition to an ordered history and rewrites the whole history
  to the results file after every evaluation;
- returns the lowest error seen and the condition that produced it.

The model covers `HPOptimizer.optimize` and `Random.condition_generator` in
`ponderosa/optimizers.py`. It also covers `Grid`, which is only another name for `Random`.

- `search.dfy`, module `Search`: the specification of one run. It defines:
  - records: `Annotate`;
  - the ordered history: `History`;
  - the best-so-far fold with its strict `<` against the sentinel `1e10`: `Best`;
  - a reference definition of the answer, "the first condition attaining the minimum of
    the sentinel and all errors": `IsFirstMinimum`;
  - the events of a run, in order: a write of the whole history to the results file,
    then a progress report, once per evaluation: `Event` and `Trace`.
- `optimizers.dfy`, module `Optimizers`: the imperative part.
  - Python's slice cap: `Cap`.
  - An in-place shuffle on an array: `Shuffle`, a Fisher-Yates pass whose swap partners
    are unspecified choices. So the model promises only "some permutation".
  - The class `Random` has:
    - the `nIter` field;
    - a ghost event log `events` of every results-file write and every progress report.
  - `Random.ConditionGenerator` builds the list the generator walks: shuffled, then capped
    at the `nIter` value it sees at that point.
  - `Random.Optimize` is one run: it builds that list, then hands it to
    `Random.EvaluateAll`.
  - `Random.EvaluateAll` is the driver loop. Each iteration is one resumption of the
    generator, which adds 1 to `nIter`, followed by one evaluation.
  - `type Grid = Random` is the alias.

The collaborators are abstract:

- The evaluation (`initialize(**c)` followed by `evaluate_hyperparameters`) is a function
  `Condition -> Outcome`.
- `tb.grid_expand` is replaced by its result, the input sequence `grid`.
- `rnd.shuffle` is the nondeterministic `Shuffle`.
- `tb.results_dict_list_to_csv` appends `Write(h)` to `events`, where `h` is the full current history.
- `tb.results_csv_to_dict_list` followed by `tb.progress_report` appends `Report` to `events`.

Behaviour of the Python code that the model keeps, including some a reader may not expect:

- The capped list is `conditions[:n_iter]`, taken only when `n_iter < len(conditions)`.
  With a negative `n_iter`, Python's slice counts from the end, so `|grid| + n_iter` conditions
  are yielded (0 at least). `Cap` models exactly that.
- The cap is read once, when the generator starts. After a run, `nIter` has grown by
  the number of conditions yielded, so a second `Optimize` on the same object runs with
  the larger cap. The model keeps this: each call caps at the current `nIter`.
- The only enumeration strategy is the shuffled one. `Grid` is an alias of `Random`, so
  even the "grid" search visits a shuffled order. This code has no ordered variant.
- An error equal to the sentinel, or above it, never becomes the best. The strict `<`
  also means that ties keep the earliest condition.
- `Annotate` overwrites a parameter that happens to be named `error` or `info`.
- The best condition is the annotated record itself, carrying its `error` and `info`.
  It is one of the history's records.

## Model

| member | source | states |
|---|---|---|
| Search.Annotate | ponderosa/optimizers.py:46-47 | the record has exactly the condition's keys plus `error` and `info`, holds the outcome's error and info there, and keeps every other parameter entry unchanged |
| Search.History | ponderosa/optimizers.py:40-48 | the history has one record per evaluated condition |
| Search.HistoryOrder | ponderosa/optimizers.py:41-48 | the i-th record is the i-th yielded condition annotated with its own outcome: nothing is reordered, dropped or deduplicated |
| Search.HistoryPrefix | ponderosa/optimizers.py:40-48 | the history after k evaluations is the first k records of every later history |
| Search.Consider | ponderosa/optimizers.py:52-54 | one best-so-far update: the new best error is no larger than the old one or the new error; the incumbent either stays or becomes the new record; an equal error keeps the incumbent |
| Search.Best | ponderosa/optimizers.py:38-54 | the best-so-far state after a run never exceeds the sentinel, and with no best condition it is exactly the sentinel |
| Search.BestIsFirstMinimum | ponderosa/optimizers.py:38-54 | the best-so-far fold yields the minimum of the sentinel and all errors. There is a best condition exactly when some error is strictly below the sentinel. That condition is the record of the first condition attaining the minimum, so ties keep the earliest |
| Search.FirstMinimumUnique | ponderosa/optimizers.py:52-54 | the reference definition of the answer determines it uniquely |
| Search.BestNonIncreasing | ponderosa/optimizers.py:52-54 | the best error never increases from a shorter run prefix to a longer one. Once a best condition exists it is never reset to none |
| Search.BestIsRecorded | ponderosa/optimizers.py:48-54 | a returned best condition is one of the history's records |
| Search.Trace | ponderosa/optimizers.py:49-57 | a run with history h produces two events per record |
| Search.TraceAlternates | ponderosa/optimizers.py:49-57 | results-file writes and progress reports alternate, starting with a write; the i-th write holds exactly the first i + 1 records |
| Optimizers.SliceEnd | ponderosa/optimizers.py:74 | the end index of Python's `s[:n]` lies within the sequence |
| Optimizers.Cap | ponderosa/optimizers.py:73-74 | the capped list is a prefix of the shuffled list, of length min(n_iter, size) for a non-negative cap and max(0, size + n_iter) for a negative one |
| Optimizers.Shuffle | ponderosa/optimizers.py:72 | the list is permuted in place: its multiset of conditions is unchanged |
| Optimizers.PrefixOfPermutation | ponderosa/optimizers.py:72-74 | a prefix of a permutation of the grid is a sub-multiset of the grid, so every yielded condition is in the grid and no condition is yielded more often than the grid holds it |
| Optimizers.Random.constructor | ponderosa/optimizers.py:65-68 | a new search stores the given cap and its event log is empty |
| Optimizers.Random.Default | ponderosa/optimizers.py:65-68 | a search built without a cap stores the default cap 1e10 and its event log is empty |
| Optimizers.Random.ConditionGenerator | ponderosa/optimizers.py:70-75 | the list to yield is the cap of some permutation of the grid. Its length is min(n_iter, size) for a non-negative cap, and it is a sub-multiset of the grid |
| Optimizers.Random.EvaluateAll | ponderosa/optimizers.py:38-57 | after the loop over the yielded list, `nIter` has grown by its length. The result is the best-so-far fold over the list. The event log has gained, per evaluation and in order, a write of the full history so far and then a report |
| Optimizers.Random.Optimize | ponderosa/optimizers.py:29-58 | the conditions are evaluated in the order of a capped permutation of the grid, and the cap is fixed by `nIter` at the start. Afterwards `nIter` has grown by the number yielded. The result equals the best-so-far fold and satisfies the first-minimum definition; an empty run returns the sentinel and none. The event log has gained one write of the full history and then one report per evaluation |

## Left out

- `HPOptimizer.__init__`: it builds the report paths and creates the report directory, swallowing errors. This is file-system I/O. The default directory name holds a timestamp taken once, when the module was imported, because Python evaluates default arguments when the class body runs.
- The `print` calls in `optimize` and `Random.__init__`: console output only.
- The base `HPOptimizer.condition_generator`: it returns `None` (ponderosa/optimizers.py:60-61), so iterating over it fails. It is only a hook for subclasses. The model has one class, because `Random` is the only implementation.
- `tb.grid_expand`, `tb.results_dict_list_to_csv`, `tb.results_csv_to_dict_list` and `tb.progress_report` are not part of this model. Their source is not available.
  - The expanded grid is an input.
  - A file write is one `Write` event carrying the history written.
  - The reload plus report is one `Report` event.
  - Nothing is claimed about the CSV round trip or about what the report shows.
- The distribution of `rnd.shuffle`: only "some permutation" is modelled. There are no claims about uniformity or seeds.
- Exceptions: an evaluation, a result-file write or a report that raises aborts the Python run midway. The model's collaborators are total functions and logs, so that abort path is not modelled.
- Floating point: errors are integers, and the sentinel `1e10` is the integer 10_000_000_000.
  - The cap `n_iter` is modelled as an integer only.
  - In Python, any float `n_iter`, integral or not, raises a TypeError at the slice (ponderosa/optimizers.py:74) once the cap applies. For example, `Random(n_iter=5.0)` over 10 conditions raises, while the model with cap 5 yields 5 conditions.
  - The float default 1e10 is safe only because it never caps a realistic grid. `Random.Default` stores it as the integer `DefaultNIter`.
- Aliasing of condition dictionaries: the model treats conditions as values. This matches the source as long as the expanded grid holds distinct dictionary objects. The same object appearing twice would be annotated in place twice, and that is not modelled.
- `ponderosa/demo.py`, `ponderosa/demo_video.py` and `setup.py` are not part of this model. They are plotting, video rendering and packaging.
