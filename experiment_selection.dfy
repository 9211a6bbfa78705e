/** How GenericFigure.py chooses what to draw: the experiments of a source
    that match the `experiments` glob, the base experiments among them that
    match the `base_exp` glob (none at all ends the program with status 1),
    the state counts 10 to 20 whose fitted models are loaded for every
    experiment, and the model with the requested number of states picked
    out of that list for each base experiment's figure. The glob match
    (`fnmatch`) is a parameter of the model. */
module ExperimentSelection {
  import opened Wrappers

  // ---------------------------------------------------------------------
  // Filtering the experiments
  // ---------------------------------------------------------------------

  /** a is b with some elements left out and the rest in their order. */
  predicate IsSubsequence(a: seq<string>, b: seq<string>)
  {
    if a == [] then true
    else if b == [] then false
    else if a[0] == b[0] then IsSubsequence(a[1..], b[1..])
    else IsSubsequence(a, b[1..])
  }

  /** The comprehension `[x for x in xs if fnmatch(x, pattern)]`. */
  function Filter(xs: seq<string>, pattern: string, matches: (string, string) -> bool): (r: seq<string>)
    // Order is kept and nothing is invented.
    ensures IsSubsequence(r, xs)
    // Exactly the matching names are kept ...
    ensures forall x :: x in r <==> x in xs && matches(x, pattern)
    // ... each as often as it occurs in xs.
    ensures forall x :: multiset(r)[x] == if matches(x, pattern) then multiset(xs)[x] else 0
  {
    if xs == [] then []
    else
      var rest := Filter(xs[1..], pattern, matches);
      assert xs == [xs[0]] + xs[1..];
      if matches(xs[0], pattern) then
        assert ([xs[0]] + rest)[1..] == rest;
        [xs[0]] + rest
      else rest
  }

  datatype Selection = Selection(experiments: seq<string>, baseExps: seq<string>)

  /** The `sys.exit(1)` after "Invalid experiment <base_exp> doesn't match
      any of <experiments>" on standard error. */
  datatype Abort = Abort(status: int, basePattern: string, candidates: seq<string>)

  /** GenericFigure.py:38-48; `all` is `hmmsupport.all_experiments(source)`. */
  function SelectExperiments(all: seq<string>, expPattern: string, basePattern: string,
                             matches: (string, string) -> bool): (r: Result<Selection, Abort>)
    // The program stops exactly when no experiment matches both globs ...
    ensures r.Err? <==> forall e :: e in all ==> !(matches(e, expPattern) && matches(e, basePattern))
    // ... with status 1, listing the experiments the first glob matched.
    ensures r.Err? ==> r.error == Abort(1, basePattern, Filter(all, expPattern, matches))
    ensures r.Ok? ==>
      var s := r.value;
      && s.experiments == Filter(all, expPattern, matches)
      && s.baseExps == Filter(s.experiments, basePattern, matches)
      // Both lists are non-empty, so `experiments[0]` (the default of
      // do_the_whole_giant_figure) exists ...
      && |s.experiments| > 0 && |s.baseExps| > 0
      // ... and every base experiment is an experiment, whose raster and
      // models have been loaded.
      && IsSubsequence(s.baseExps, s.experiments)
      && (forall e :: e in s.baseExps ==> e in s.experiments && matches(e, basePattern))
  {
    var experiments := Filter(all, expPattern, matches);
    var baseExps := Filter(experiments, basePattern, matches);
    if baseExps == [] then
      assert forall e :: e in all && matches(e, expPattern) && matches(e, basePattern) ==> e in baseExps;
      Err(Abort(1, basePattern, experiments))
    else
      Ok(Selection(experiments, baseExps))
  }

  // ---------------------------------------------------------------------
  // State counts and the model lookup
  // ---------------------------------------------------------------------

  const MinStates := 10
  const MaxStates := 20
  /** The `n_states` default of do_the_whole_giant_figure. */
  const FigureStates := 15
  const BinSizeMs := 30
  const Surrogate := "real"
  const Library := "default"

  /** `n_stateses = np.arange(10, 20 + 1)`. */
  function StateCounts(): (counts: seq<int>)
    // Exactly 10 to 20, in increasing order.
    ensures |counts| == MaxStates - MinStates + 1
    ensures forall i :: 0 <= i < |counts| ==> counts[i] == MinStates + i
  {
    Arange(MinStates, MaxStates + 1)
  }

  /** `np.where(s == x)[0][0]`: the first position of s holding x. `None`
      stands for the IndexError raised when x does not occur. */
  function FirstIndexOf(s: seq<int>, x: int): (r: Option<nat>)
    ensures r.None? <==> x !in s
    ensures r.Some? ==>
      r.value < |s| && s[r.value] == x && forall j :: 0 <= j < r.value ==> s[j] != x
  {
    if s == [] then None
    else if s[0] == x then Some(0)
    else match FirstIndexOf(s[1..], x)
      case Some(i) => Some(i + 1)
      case None => None
  }

  /** The identity of one fitted model: the parameters `Model(...)` is
      given at GenericFigure.py:65. */
  datatype ModelKey = ModelKey(source: string, experiment: string, binSizeMs: nat,
                               nStates: int, surrogate: string, library: string)

  /** `rasters[exp][1]`: `process_model(n)` for each n of StateCounts, in
      that order. */
  function ModelsFor(source: string, exp: string): (models: seq<ModelKey>)
    // One model per state count, 10 to 20, each fitted to this experiment
    // of this source with the fixed bin size, surrogate and library.
    ensures |models| == MaxStates - MinStates + 1
    ensures forall i :: 0 <= i < |models| ==>
      models[i] == ModelKey(source, exp, BinSizeMs, MinStates + i, Surrogate, Library)
  {
    seq(|StateCounts()|, i requires 0 <= i < |StateCounts()| =>
      ModelKey(source, exp, BinSizeMs, StateCounts()[i], Surrogate, Library))
  }

  /** GenericFigure.py:121, `models[np.where(n_stateses == n_states)[0][0]]`, `None`
      for the IndexError. */
  function LookupModel(models: seq<ModelKey>, nStates: int): (r: Option<ModelKey>)
    requires |models| == |StateCounts()|
    // Only 10 to 20 states can be looked up ...
    ensures r.Some? <==> MinStates <= nStates <= MaxStates
    // ... and n states sit at index n - 10.
    ensures r.Some? ==> r.value == models[nStates - MinStates]
  {
    assert MinStates <= nStates <= MaxStates ==> StateCounts()[nStates - MinStates] == nStates;
    match FirstIndexOf(StateCounts(), nStates)
    case Some(i) => Some(models[i])
    case None => None
  }

  /** The lookup hands back the model fitted with the requested number of
      states for the requested experiment. */
  lemma LookupFindsRequestedModel(source: string, exp: string, nStates: int)
    requires MinStates <= nStates <= MaxStates
    ensures LookupModel(ModelsFor(source, exp), nStates)
         == Some(ModelKey(source, exp, BinSizeMs, nStates, Surrogate, Library))
  {
    assert StateCounts()[nStates - MinStates] == nStates;
  }

  /** GenericFigure.py:319-320, the model each figure is drawn from: for each
      base experiment, in order, the figure drawn for it uses that
      experiment's 15-state model. */
  function FigureModels(source: string, baseExps: seq<string>): (r: seq<ModelKey>)
    ensures |r| == |baseExps|
    ensures forall i :: 0 <= i < |r| ==>
      r[i] == ModelKey(source, baseExps[i], BinSizeMs, FigureStates, Surrogate, Library)
  {
    if baseExps == [] then []
    else
      LookupFindsRequestedModel(source, baseExps[0], FigureStates);
      [LookupModel(ModelsFor(source, baseExps[0]), FigureStates).value]
        + FigureModels(source, baseExps[1..])
  }
}
