# Protosequences figure selection and HMM worker, modelled in Dafny

This project models the deterministic logic of two scripts from an analysis
pipeline that fits Hidden Markov Models to neural spike rasters and draws
figures from them:

- `GenericFigure.py` draws one figure per base experiment. It parses the
  `--states` option with `three_ints`. It picks the experiments of a source
  that match a glob, and the base experiments among them that match a second
  glob; when no base experiment matches, it exits with status 1. It loads one
  fitted model for each state count from 10 to 20. For a figure, it picks the
  model with the requested number of states, 15 by default. It orders the
  raster's units by a stored ordering, or by the identity when no metrics
  exist, and builds the inverse ordering with a numpy scatter assignment.
- `HMM_analysis_python/hmm_worker.py` holds `fit_hmm`, the worker callback.
  It fits the model a job describes. When the optimiser raises
  `ZeroDivisionError`, it hands the job back to the queue and prints whether
  the job will be retried. Any other exception propagates.

Modules, one per concern:

- `Wrappers` (`wrappers.dfy`): `Option`, `Result` and numpy's `arange`.
- `ArgParsing` (`arg_parsing.dfy`): Python's `str.split`, `int()` on text and
  `three_ints`.
- `UnitOrder` (`unit_order.dfy`): `load_unit_order`. The numpy scatter
  `inverse[order] = arange(N)` is a method that fills an `array` in a loop.
  It is proved against the function `Scatter`. Lemmas about `Scatter` show
  that for a permutation the result is the two-sided inverse.
- `ExperimentSelection` (`experiment_selection.dfy`): the two glob filters and
  the exit, the state counts, the `np.where` lookup, and the model each
  figure draws.
- `HmmWorker` (`hmm_worker.dfy`): `fit_hmm` as a method over a `Job` object
  and a `Console` object. The fit and the queue's answer to `requeue()` are
  inputs.

The model cache and the job queue, with its attempt counter and retry bound,
live in `hmmsupport`, which is not part of this model. In hmm_worker.py,
`requeue()` returns a plain boolean. An exception other than
`ZeroDivisionError` is not logged by `fit_hmm`; it simply leaves the callback.

## Model

| member | source | states |
|---|---|---|
| `ArgParsing.Split` | GenericFigure.py:17 | a string with k commas splits into k + 1 fields, and no field contains the separator |
| `ArgParsing.JoinOfSplit` | GenericFigure.py:17 | joining the fields of a split with the separator gives back the original text |
| `ArgParsing.SplitOfJoin` | GenericFigure.py:17 | splitting a join of separator-free fields gives back exactly those fields |
| `ArgParsing.ParseInt` | GenericFigure.py:18 | `int()` rejects blank text; it accepts text exactly when, once stripped of whitespace, it is an optional sign followed by digits with single underscores only between two digits; only a leading minus gives a negative value |
| `ArgParsing.ParsePlusSign` | GenericFigure.py:18 | `int("+" + s)` equals `int(s)` for a digit literal s |
| `ArgParsing.ParseMinusSign` | GenericFigure.py:18 | `int("-" + s)` is the negation of `int(s)` for a digit literal s |
| `ArgParsing.ParseLeadingZero` | GenericFigure.py:18 | a leading zero leaves the value unchanged: `int("05") == int("5")` |
| `ArgParsing.ParseUnderscore` | GenericFigure.py:18 | an underscore between two digit literals leaves the value unchanged: `int("1_000") == int("1000")` |
| `ArgParsing.ParseOfShow` | GenericFigure.py:18 | `int()` of the decimal text of any integer n is n |
| `ArgParsing.ParseIgnoresSurroundingSpace` | GenericFigure.py:18 | `int()` gives the same answer when a space, tab, line feed, vertical tab, form feed or carriage return is added before or after its argument |
| `ArgParsing.ThreeInts` | GenericFigure.py:16-18 | anything other than exactly two commas is a field-count error; success holds exactly when there are three fields and each parses; the i-th result is the i-th field's value minus one; otherwise the error names the first field that does not parse |
| `ArgParsing.ThreeIntsOfFormatted` | GenericFigure.py:16-18 | "x+1,y+1,z+1" yields [x, y, z], so one-based input becomes zero-based in field order |
| `ArgParsing.ThreeIntsOfSpaced` | GenericFigure.py:16-18 | "x+1, y+1, z+1", with a space after each comma, yields [x, y, z] too |
| `UnitOrder.ToInt32` | GenericFigure.py:109 | the `np.int32` cast lands in the signed 32-bit range, agrees with its input modulo 2^32, and leaves in-range values unchanged |
| `UnitOrder.UnitOrderOf` | GenericFigure.py:107-112 | with metrics, entry i is stored entry i minus one, cast to int32; without metrics, the ordering is 0, 1, ..., N - 1 |
| `UnitOrder.StoredPermutation` | GenericFigure.py:108-109 | a stored ordering listing each of 1..N once becomes a permutation of 0..N-1 |
| `UnitOrder.IdentityPermutation` | GenericFigure.py:110-112 | the fallback ordering is a permutation |
| `UnitOrder.Scatter` | GenericFigure.py:114-115 | the scatter keeps the length of the zero array it writes into |
| `UnitOrder.ScatterLastWriteWins` | GenericFigure.py:115 | a position written by pair k and by no later pair holds `vals[k]`, which is k for the `arange` values; negative indices count from the end |
| `UnitOrder.ScatterUntouched` | GenericFigure.py:114-115 | a position that no index names keeps its zero |
| `UnitOrder.InverseOfPermutation` | GenericFigure.py:114-115 | for a permutation, inverse[order[i]] == i for every i, and order[inverse[j]] == j for every j |
| `UnitOrder.InverseUnitOrder` | GenericFigure.py:114-115 | the scatter succeeds exactly when the values broadcast and every index is in bounds; a shape error or the first bad index is reported otherwise; on success the array has the ordering's length and holds the scatter's result |
| `UnitOrder.LoadUnitOrder` | GenericFigure.py:101-116 | the warning is printed exactly when metrics are absent; for any ordering, the scatter raises exactly when the values do not broadcast (ValueError) or an index is out of bounds (IndexError, naming the first such index), and otherwise holds the scatter's result; the identity fallback is its own inverse; a permutation of the raster's N units gets its two-sided inverse |
| `ExperimentSelection.Filter` | GenericFigure.py:38-41 | the filter keeps the order, keeps exactly the matching names, and keeps each as often as it occurs |
| `ExperimentSelection.SelectExperiments` | GenericFigure.py:38-48 | the program exits with status 1 exactly when no experiment matches both globs, listing the experiments the first glob matched; otherwise both lists are non-empty and the base experiments are an ordered sub-list of the experiments |
| `ExperimentSelection.ModelsFor` | GenericFigure.py:64-77 | an experiment's model list holds, at position i, the model of that source and experiment with 10 + i states, 30 ms bins, the real surrogate and the default library, for the 11 state counts 10 to 20 |
| `ExperimentSelection.StateCounts` | GenericFigure.py:55-56 | the state counts are exactly 10 to 20, in increasing order |
| `ExperimentSelection.FirstIndexOf` | GenericFigure.py:121 | `np.where(...)[0][0]` is the first position holding the value, or an IndexError exactly when the value is absent |
| `ExperimentSelection.LookupModel` | GenericFigure.py:121 | the lookup in the state counts of lines 55-56 succeeds exactly for 10 to 20 states, and n states sit at index n - 10 |
| `ExperimentSelection.LookupFindsRequestedModel` | GenericFigure.py:119-121 | the model looked up for n states is the one loaded for that experiment with n states |
| `ExperimentSelection.FigureModels` | GenericFigure.py:319-320 | for each base experiment, in order, the figure drawn for it uses that experiment's 15-state model |
| `HmmWorker.FitHmm` | HMM_analysis_python/hmm_worker.py:3-12 | the fit gets the job's parameters and verbose=True; after a ZeroDivisionError, `requeue()` is called exactly once and one line is printed, "retrying" exactly when the queue took the job back; otherwise nothing is requeued or printed; other exceptions propagate unchanged |
| `HmmWorker.Job.Requeue` | HMM_analysis_python/hmm_worker.py:9 | each call is counted, and the call returns the queue's answer |

## Left out

- Figure construction, subplot layout, colour maps and `plt.show`
  (GenericFigure.py:122-316) are presentation only.
- The `--states` fallback (GenericFigure.py:126, :129) computes the states
  from floating-point state probabilities and is left out.
- The `sorted(...)` at GenericFigure.py:129 reorders the chosen states, whether
  `three_ints` supplied them or the fallback computed them. It belongs to the
  figure code and is left out.
- Entropy means, baselines, firing rates and burst finding are floating-point
  numerics.
- `np.random.choice` of example bursts is random presentation.
- `joblib.Parallel` (GenericFigure.py:74-76) is concurrency. The model assumes
  it returns one model per state count in submission order, which is what
  joblib documents.
- `become_worker` (hmm_worker.py:14) is transport code in `hmmsupport`.
- `get_raster`, `Model`, `load_metrics`, `all_experiments` and
  `get_fitted_hmm` belong to `hmmsupport`, which is not part of this model.
  Their results are parameters.
- The "No model for ... states!" message is left out: it depends on `Model`
  internals.
- `fnmatch` glob semantics are left out. The match is the parameter
  `matches`.
- argparse turns `three_ints`' ValueError into a usage error. That plumbing
  is not modelled; `ThreeInts` returns the error instead.
- ArgParsing.ParseInt covers ASCII text only. Python's `int()` also accepts
  non-ASCII decimal digits and non-ASCII whitespace.
- ArgParsing.ParseInt has no limit on the number of digits. Python 3.11 and
  later (and 3.10.7 and later) refuse, by default, to convert text of more
  than 4300 digits with a ValueError, and `str(n)` refuses such integers the
  same way; the limit is configurable. `ParseOfShow` and
  `ThreeIntsOfFormatted` therefore also cover integers those versions refuse.
- UnitOrder.UnitOrderOf takes the stored ordering as a flat sequence of
  integers. It leaves out `.flatten()` of a matrix, float entries (which
  `np.int32` truncates), and a metrics dictionary that lacks the key.
  "Metrics absent" (`None`) also covers an empty dictionary, which `if srm:`
  treats the same way.
- UnitOrder.InverseUnitOrder applies repeated indices in index order, so the
  last one wins. numpy does not promise that order.
- UnitOrder.InverseUnitOrder reports the shape error first when both a shape
  error and a bad index are present. Which of the two numpy raises first is
  not modelled.
- ExperimentSelection.FigureModels does not model the program stopping when
  drawing a figure raises (for example the scatter's error from
  `load_unit_order`, or `model.states` on a model that was not found): the base
  experiments after that one get no figure.
- UnitOrder.InverseUnitOrder and UnitOrder.LoadUnitOrder do not state that the
  inverse array is newly allocated, as `np.zeros_like` makes it; the contracts
  speak only of its length and contents.
- UnitOrder.InverseUnitOrder does not model wrap-around when values of
  2^31 or more are stored into an int32 array. That needs a raster with more
  than 2^31 units.
- HmmWorker.Job.Requeue gives one fixed answer per job. The queue's attempt
  counter and retry bound live in `hmmsupport`. `fit_hmm` calls `requeue()` at
  most once, so one answer per job covers every call.
