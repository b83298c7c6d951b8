/** The generational loop of `GeneticAlgorithm.start_evolution` (gaps/genetic_algorithm.py),
    with every individual reduced to its fitness value. Parent selection and crossover are
    supplied as functions; they receive the generation number (and the pair's position) in
    place of the random state `roulette_selection` and `Crossover` draw from. */
module GeneticAlgorithm {
  import opened Wrappers
  import opened PySeq

  /** Generations in which the fittest does not beat the best score so far, after which the run stops. */
  const TerminationThreshold: nat := 10

  /** `roulette_selection(population, elites)`: parent pairs drawn from the population. */
  type Selection = (nat, seq<int>, int) -> seq<(int, int)>

  /** `Crossover(first, second).child()`: the child of the `k`-th pair of a generation. */
  type Crossover = (nat, nat, int, int) -> int

  datatype Config = Config(generations: int, eliteSize: int, select: Selection, cross: Crossover)

  /** The loop's variables: the current population, `best_fitness_score` (`None` for the initial
      minus infinity), `termination_counter`, the generation number and the last `fittest`. */
  datatype State = State(population: seq<int>, best: Option<int>, counter: nat, generation: nat, fittest: Option<int>)

  /** A generation either continues with a new state, ends the run on stagnation, or raises
      the `ValueError` of `max` on an empty population. */
  datatype StepOutcome = Continue(next: State) | Terminated(fittest: int) | EmptyPopulation

  /** What `start_evolution` returns (the last fittest, possibly `None`), whether it stopped on
      stagnation, and how many generations it evaluated; or the `ValueError` it raised. */
  datatype RunResult = Returned(fittest: Option<int>, stagnated: bool, generationsRun: nat) | Crashed(generation: nat)

  // ---------------------------------------------------------------- the helpers of the class

  /** `_get_elite_individuals(elites)`: `sorted(population)[-elites:]`. Its properties are
      stated by `EliteSpec`. */
  function Elite(population: seq<int>, elites: int): seq<int> {
    Slice(Sort(population), -elites, |population|)
  }

  /** The elite is ascending and drawn from the population; it has `elites` members when
      `0 < elites <= n`, is the whole population when `elites` is 0 (`[-0:]` is `[0:]`) or at
      least `n`, drops the `-elites` least fit when negative, and dominates what it leaves out. */
  lemma EliteSpec(population: seq<int>, elites: int)
    ensures var e := Elite(population, elites);
      && Sorted(e)
      && multiset(e) <= multiset(population)
      && (0 < elites <= |population| ==> |e| == elites)
      && (elites == 0 || elites >= |population| ==> multiset(e) == multiset(population))
      && (elites < 0 ==> |e| == (if |population| + elites < 0 then 0 else |population| + elites))
      && forall x, y :: x in multiset(population) - multiset(e) && y in e ==> x <= y
  {
    var sorted := Sort(population);
    var n := |population|;
    var a := SliceBound(-elites, n);
    SliceFromIsSuffix(sorted, -elites);
    assert Slice(sorted, -elites, n) == sorted[a..];
    EliteIsTopSuffix(population, a);
  }

  /** A suffix of the sorted population: ascending, drawn from the population, and at least as
      fit as everything it leaves out. */
  lemma EliteIsTopSuffix(population: seq<int>, a: nat)
    requires a <= |population|
    ensures var e := Sort(population)[a..];
      && Sorted(e)
      && multiset(e) <= multiset(population)
      && (a == 0 ==> multiset(e) == multiset(population))
      && forall x, y :: x in multiset(population) - multiset(e) && y in e ==> x <= y
  {
    var sorted := Sort(population);
    var e := sorted[a..];
    SortedSplit(sorted, a);
    assert a == 0 ==> e == sorted;
    forall x, y | x in multiset(population) - multiset(e) && y in e
      ensures x <= y
    {
      assert y in multiset(e);
    }
  }

  /** The fittest value of a generation and the one-element "partial population" reported with it. */
  datatype Fittest = Fittest(fittest: int, partial: seq<int>)

  /** `_best_individual()`: `max(population)` and `sorted(population)[-1:]`; `None` where `max`
      raises on an empty population. Its properties are stated by `BestSpec`. */
  function Best(population: seq<int>): Option<Fittest> {
    if population == [] then None
    else Some(Fittest(Max(population), Slice(Sort(population), -1, |population|)))
  }

  /** `_best_individual` fails exactly on an empty population; otherwise it returns a member of
      maximal fitness, and the "partial population" holds that one value. */
  lemma BestSpec(population: seq<int>)
    ensures var r := Best(population);
      && (r.None? <==> population == [])
      && (r.Some? ==> r.value.fittest in population && forall x :: x in population ==> x <= r.value.fittest)
      && (r.Some? ==> r.value.partial == [r.value.fittest])
  {
    if population != [] {
      var sorted := Sort(population);
      SortedLastIsMax(population);
      SliceFromIsSuffix(sorted, -1);
    }
  }

  /** The children of the selected pairs, one per pair, appended in pair order. Their properties
      are stated by `OffspringSpec`. */
  function Offspring(generation: nat, pairs: seq<(int, int)>, cross: Crossover): seq<int>
    decreases |pairs|
  {
    if pairs == [] then []
    else
      var k := |pairs| - 1;
      Offspring(generation, pairs[..k], cross) + [cross(generation, k, pairs[k].0, pairs[k].1)]
  }

  /** One child per pair, in pair order: child `k` is the crossover of pair `k`. */
  lemma {:induction false} OffspringSpec(generation: nat, pairs: seq<(int, int)>, cross: Crossover)
    ensures var children := Offspring(generation, pairs, cross);
      && |children| == |pairs|
      && forall k :: 0 <= k < |pairs| ==> children[k] == cross(generation, k, pairs[k].0, pairs[k].1)
    decreases |pairs|
  {
    if pairs != [] {
      var k := |pairs| - 1;
      OffspringSpec(generation, pairs[..k], cross);
    }
  }

  /** The population a generation builds: the elite, then the children of the selected pairs.
      Its properties are stated by `NextPopulationSpec`. */
  function NextPopulation(cfg: Config, generation: nat, population: seq<int>): seq<int> {
    var elite := Elite(population, cfg.eliteSize);
    elite + Offspring(generation, cfg.select(generation, population, cfg.eliteSize), cfg.cross)
  }

  /** The next population starts with the elite, followed by one crossover child per selected pair. */
  lemma NextPopulationSpec(cfg: Config, generation: nat, population: seq<int>)
    ensures var next := NextPopulation(cfg, generation, population);
      var elite := Elite(population, cfg.eliteSize);
      var pairs := cfg.select(generation, population, cfg.eliteSize);
      && |next| == |elite| + |pairs|
      && next[..|elite|] == elite
      && forall k :: 0 <= k < |pairs| ==> next[|elite| + k] == cfg.cross(generation, k, pairs[k].0, pairs[k].1)
  {
    OffspringSpec(generation, cfg.select(generation, population, cfg.eliteSize), cfg.cross);
  }

  // ---------------------------------------------------------------- the loop

  function Initial(population: seq<int>): State {
    State(population, None, 0, 0, None)
  }

  /** `fittest.fitness <= best_fitness_score`, with `None` standing for minus infinity. */
  predicate NoImprovement(fittest: int, best: Option<int>) {
    best.Some? && fittest <= best.value
  }

  /** One pass through the body of the generation loop. */
  function Step(cfg: Config, s: State): (o: StepOutcome)
    ensures o.EmptyPopulation? <==> s.population == []
    ensures o.Continue? ==> o.next.generation == s.generation + 1
  {
    var next := NextPopulation(cfg, s.generation, s.population);
    match Best(s.population)
    case None => EmptyPopulation
    case Some(b) =>
      var stagnant := NoImprovement(b.fittest, s.best);
      var counter := if stagnant then s.counter + 1 else s.counter;
      var best := if stagnant then s.best else Some(b.fittest);
      if counter == TerminationThreshold then Terminated(b.fittest)
      else Continue(State(next, best, counter, s.generation + 1, Some(b.fittest)))
  }

  /** What one generation does to the loop's variables: the best score becomes the larger of
      itself and the generation's fittest value, so it never decreases; the counter goes up by one
      exactly when the fittest value is no better than the best score, and is never reset; the
      run stops exactly when the counter reaches the threshold, returning that fittest value;
      otherwise the population is replaced by the next one. */
  lemma GenerationStep(cfg: Config, s: State)
    ensures s.population != [] ==>
      var o := Step(cfg, s);
      var f := Max(s.population);
      var counter := if s.best.Some? && f <= s.best.value then s.counter + 1 else s.counter;
      && (o.Terminated? <==> counter == TerminationThreshold)
      && (o.Terminated? ==> o.fittest == f)
      && (o.Continue? ==>
            && o.next.population == NextPopulation(cfg, s.generation, s.population)
            && o.next.fittest == Some(f)
            && o.next.counter == counter
            && o.next.best == Some(if s.best.Some? && s.best.value > f then s.best.value else f))
  {
  }

  /** The generation loop from state `s` on: `for generation in range(generations)`. */
  function Run(cfg: Config, s: State): (r: RunResult)
    decreases cfg.generations - s.generation
  {
    if s.generation >= cfg.generations then Returned(s.fittest, false, s.generation)
    else
      match Step(cfg, s)
      case EmptyPopulation => Crashed(s.generation)
      case Terminated(f) => Returned(Some(f), true, s.generation + 1)
      case Continue(t) => Run(cfg, t)
  }

  /** `start_evolution` on an initial population. */
  function Evolve(cfg: Config, population: seq<int>): RunResult {
    Run(cfg, Initial(population))
  }

  /** The fittest value of each generation the loop evaluates from `s` on. */
  function Trajectory(cfg: Config, s: State): seq<int>
    decreases cfg.generations - s.generation
  {
    if s.generation >= cfg.generations then []
    else
      match Step(cfg, s)
      case EmptyPopulation => []
      case Terminated(f) => [f]
      case Continue(t) => [Max(s.population)] + Trajectory(cfg, t)
  }

  // ---------------------------------------------------------------- reference definitions

  /** The best score after generations whose fittest values were `fs`: their maximum, or minus infinity. */
  function MaxSoFar(fs: seq<int>): Option<int> {
    if fs == [] then None else Some(Max(fs))
  }

  /** The generations of `fs` whose fittest value was no better than some earlier generation's. */
  function StagnantGenerations(fs: seq<int>): set<nat> {
    set g: nat | g < |fs| && exists h :: 0 <= h < g && fs[g] <= fs[h]
  }

  function Last(fs: seq<int>): Option<int> {
    if fs == [] then None else Some(fs[|fs| - 1])
  }

  /** The loop's variables after evaluating the generations with fittest values `fs`. */
  ghost predicate Tracks(s: State, fs: seq<int>) {
    && s.generation == |fs|
    && s.best == MaxSoFar(fs)
    && s.counter == |StagnantGenerations(fs)|
    && s.fittest == Last(fs)
  }

  /** One more generation raises the best score to its fittest value when that value is larger. */
  lemma MaxSoFarAppend(fs: seq<int>, f: int)
    ensures MaxSoFar(fs + [f]) == Some(if fs != [] && Max(fs) > f then Max(fs) else f)
  {
    var gs := fs + [f];
    if fs != [] {
      var m, m' := Max(fs), Max(gs);
      assert m in gs && f in gs;
      if m' == f {
      } else {
        assert m' in fs;
      }
    }
  }

  /** One more generation is stagnant exactly when its fittest value is no better than the
      best score so far, and it leaves the earlier generations' verdicts alone. */
  lemma StagnantAppend(fs: seq<int>, f: int)
    ensures StagnantGenerations(fs + [f]) ==
      StagnantGenerations(fs) + (if NoImprovement(f, MaxSoFar(fs)) then {|fs|} else {})
    ensures |StagnantGenerations(fs + [f])| ==
      |StagnantGenerations(fs)| + (if NoImprovement(f, MaxSoFar(fs)) then 1 else 0)
  {
    var before, after := StagnantGenerations(fs), StagnantGenerations(fs + [f]);
    var added := if NoImprovement(f, MaxSoFar(fs)) then {|fs|} else {};
    forall g: nat
      ensures g in after <==> g in before + added
    {
      if g < |fs| {
        StagnantKept(fs, f, g);
      } else if g == |fs| {
        StagnantLast(fs, f);
      }
    }
    assert |fs| !in before;
  }

  /** Appending a generation does not change whether an earlier one was stagnant. */
  lemma StagnantKept(fs: seq<int>, f: int, g: nat)
    requires g < |fs|
    ensures g in StagnantGenerations(fs + [f]) <==> g in StagnantGenerations(fs)
  {
    var gs := fs + [f];
    if g in StagnantGenerations(gs) {
      var h :| 0 <= h < g && gs[g] <= gs[h];
      assert fs[g] <= fs[h];
    }
    if g in StagnantGenerations(fs) {
      var h :| 0 <= h < g && fs[g] <= fs[h];
      assert gs[g] <= gs[h];
    }
  }

  /** The appended generation is stagnant exactly when it does not beat the best score so far. */
  lemma StagnantLast(fs: seq<int>, f: int)
    ensures |fs| in StagnantGenerations(fs + [f]) <==> NoImprovement(f, MaxSoFar(fs))
  {
    var gs := fs + [f];
    if NoImprovement(f, MaxSoFar(fs)) {
      var h :| 0 <= h < |fs| && fs[h] == Max(fs);
      assert gs[|fs|] <= gs[h];
    } else {
      forall h | 0 <= h < |fs|
        ensures gs[h] < gs[|fs|]
      {
        assert fs[h] in fs;
      }
    }
  }

  /** A generation moves the loop's variables exactly as appending its fittest value moves the
      reference definitions; it stops the run exactly when the stagnant count reaches the threshold. */
  lemma StepTracks(cfg: Config, s: State, fs: seq<int>)
    requires Tracks(s, fs) && s.population != []
    ensures var all := fs + [Max(s.population)];
      && |StagnantGenerations(all)| <= |StagnantGenerations(fs)| + 1
      && (Step(cfg, s).Terminated? <==> |StagnantGenerations(all)| == TerminationThreshold)
      && (Step(cfg, s).Continue? ==> Tracks(Step(cfg, s).next, all))
  {
    var f := Max(s.population);
    GenerationStep(cfg, s);
    MaxSoFarAppend(fs, f);
    StagnantAppend(fs, f);
  }

  /** An iteration of `Run` that ends the run on stagnation. */
  lemma RunStops(cfg: Config, s: State, f: int)
    requires s.generation < cfg.generations && Step(cfg, s) == Terminated(f)
    ensures Run(cfg, s) == Returned(Some(f), true, s.generation + 1)
  {
  }

  /** An iteration of `Run` that goes on with the next state. */
  lemma RunContinues(cfg: Config, s: State, t: State)
    requires s.generation < cfg.generations && Step(cfg, s) == Continue(t)
    ensures Run(cfg, s) == Run(cfg, t)
  {
  }

  /** An iteration of `Trajectory` that ends the run on stagnation. */
  lemma TrajectoryStops(cfg: Config, s: State, f: int)
    requires s.generation < cfg.generations && Step(cfg, s) == Terminated(f)
    ensures Trajectory(cfg, s) == [f]
  {
  }

  /** An iteration of `Trajectory` that goes on with the next state. */
  lemma TrajectoryContinues(cfg: Config, s: State, t: State)
    requires s.generation < cfg.generations && Step(cfg, s) == Continue(t)
    ensures Trajectory(cfg, s) == [Max(s.population)] + Trajectory(cfg, t)
  {
  }

  /** What a run returns, measured against the fittest values `all` of the generations it
      evaluated, when it may evaluate up to `cap` of them. */
  ghost predicate ReturnsAsReference(r: RunResult, all: seq<int>, cap: int) {
    && |all| <= cap
    && (r.Crashed? ==> r.generation == |all| < cap)
    && (r.Returned? ==>
          && r.generationsRun == |all|
          && r.fittest == Last(all)
          && (r.stagnated <==> |StagnantGenerations(all)| == TerminationThreshold)
          && (!r.stagnated ==> |all| == cap))
  }

  function Cap(cfg: Config, evaluated: nat): int {
    if cfg.generations > evaluated then cfg.generations else evaluated
  }

  /** `ReturnsAsReference` regrouped: the evaluated generations `fs`, then `f`, then the rest. */
  lemma ReturnsAfterContinue(r: RunResult, fs: seq<int>, f: int, rest: seq<int>, cap: int)
    requires ReturnsAsReference(r, fs + [f] + rest, cap)
    ensures ReturnsAsReference(r, fs + ([f] + rest), cap)
  {
    assert fs + [f] + rest == fs + ([f] + rest);
  }

  /** What the loop returns from `s` on, when `s` agrees with the reference definitions on the
      generations `fs` already evaluated. */
  lemma {:induction false} RunFrom(cfg: Config, s: State, fs: seq<int>)
    requires Tracks(s, fs) && s.counter < TerminationThreshold
    ensures ReturnsAsReference(Run(cfg, s), fs + Trajectory(cfg, s), Cap(cfg, |fs|))
    decreases cfg.generations - s.generation
  {
    if s.generation >= cfg.generations || s.population == [] {
      assert Trajectory(cfg, s) == [];
      assert fs + [] == fs;
    } else {
      var f := Max(s.population);
      StepTracks(cfg, s, fs);
      GenerationStep(cfg, s);
      var o := Step(cfg, s);
      if o.Terminated? {
        RunStops(cfg, s, f);
        TrajectoryStops(cfg, s, f);
        assert fs + Trajectory(cfg, s) == fs + [f];
      } else {
        RunContinues(cfg, s, o.next);
        TrajectoryContinues(cfg, s, o.next);
        var rest := Trajectory(cfg, o.next);
        RunFrom(cfg, o.next, fs + [f]);
        assert Cap(cfg, |fs|) == Cap(cfg, |fs| + 1);
        ReturnsAfterContinue(Run(cfg, o.next), fs, f, rest, Cap(cfg, |fs|));
      }
    }
  }

  /** The threshold is not reached before position `from` of `all` ends. */
  ghost predicate BelowThresholdFrom(all: seq<int>, from: nat) {
    forall k :: from <= k < |all| ==> |StagnantGenerations(all[..k])| < TerminationThreshold
  }

  lemma BelowThresholdExtend(fs: seq<int>, f: int, rest: seq<int>)
    requires |StagnantGenerations(fs)| < TerminationThreshold
    requires rest == [] || |StagnantGenerations(fs + [f])| < TerminationThreshold
    requires BelowThresholdFrom(fs + [f] + rest, |fs| + 1)
    ensures BelowThresholdFrom(fs + ([f] + rest), |fs|)
  {
    var all := fs + [f] + rest;
    assert fs + ([f] + rest) == all;
    assert all[..|fs|] == fs;
  }

  /** From a state that agrees with the reference definitions, no generation before the last
      one evaluated has reached the threshold: the run cannot step past it. */
  lemma {:induction false} RunStopsAtThreshold(cfg: Config, s: State, fs: seq<int>)
    requires Tracks(s, fs) && s.counter < TerminationThreshold
    ensures BelowThresholdFrom(fs + Trajectory(cfg, s), |fs|)
    decreases cfg.generations - s.generation
  {
    if s.generation >= cfg.generations || s.population == [] {
      assert Trajectory(cfg, s) == [];
    } else {
      var f := Max(s.population);
      StepTracks(cfg, s, fs);
      GenerationStep(cfg, s);
      var o := Step(cfg, s);
      if o.Continue? {
        TrajectoryContinues(cfg, s, o.next);
        RunStopsAtThreshold(cfg, o.next, fs + [f]);
        BelowThresholdExtend(fs, f, Trajectory(cfg, o.next));
      } else {
        TrajectoryStops(cfg, s, f);
        BelowThresholdExtend(fs, f, []);
      }
    }
  }

  /** `start_evolution` against the reference definitions: it evaluates at most `generations`
      generations, returns the fittest of the last one evaluated, stops early exactly when the
      number of generations that failed to beat an earlier one reaches the threshold, and never
      passes that point. */
  lemma Evolution(cfg: Config, population: seq<int>)
    ensures var all := Trajectory(cfg, Initial(population));
      && ReturnsAsReference(Evolve(cfg, population), all, if cfg.generations > 0 then cfg.generations else 0)
      && BelowThresholdFrom(all, 0)
  {
    var s := Initial(population);
    assert StagnantGenerations([]) == {};
    RunFrom(cfg, s, []);
    RunStopsAtThreshold(cfg, s, []);
    FromStart(Run(cfg, s), Trajectory(cfg, s), Cap(cfg, 0));
  }

  /** The reference properties of a run from no evaluated generations, with the empty prefix dropped. */
  lemma FromStart(r: RunResult, all: seq<int>, cap: int)
    requires ReturnsAsReference(r, [] + all, cap)
    requires BelowThresholdFrom([] + all, 0)
    ensures ReturnsAsReference(r, all, cap) && BelowThresholdFrom(all, 0)
  {
    assert [] + all == all;
  }

  // ---------------------------------------------------------------- elitism

  /** With a non-negative elite size the next population keeps an individual at least as fit as
      the current fittest, so it is never empty. */
  lemma ElitismKeepsFittest(cfg: Config, generation: nat, population: seq<int>)
    requires cfg.eliteSize >= 0 && population != []
    ensures NextPopulation(cfg, generation, population) != []
    ensures Max(NextPopulation(cfg, generation, population)) >= Max(population)
  {
    EliteSpec(population, cfg.eliteSize);
    NextPopulationSpec(cfg, generation, population);
    var e := Elite(population, cfg.eliteSize);
    KeepsTop(population, e, NextPopulation(cfg, generation, population));
  }

  /** A population that starts with a non-empty elite, drawn from `population` and dominating
      what it leaves out, holds a value at least as large as the maximum of `population`. */
  lemma KeepsTop(population: seq<int>, e: seq<int>, next: seq<int>)
    requires population != [] && e != [] && |e| <= |next| && next[..|e|] == e
    requires multiset(e) <= multiset(population)
    requires forall x, y :: x in multiset(population) - multiset(e) && y in e ==> x <= y
    ensures next != [] && Max(next) >= Max(population)
  {
    var m := Max(population);
    if m in multiset(population) - multiset(e) {
      assert e[0] in e;
      assert next[0] == e[0];
      assert m <= next[0];
      assert next[0] in next;
    } else {
      assert m in multiset(e);
      var i :| 0 <= i < |e| && e[i] == m;
      assert next[i] == m;
      assert next[i] in next;
    }
  }

  lemma SortedLastIsBest(all: seq<int>)
    requires Sorted(all)
    ensures Last(all) == MaxSoFar(all)
  {
    if all != [] {
      var m := Max(all);
      var i :| 0 <= i < |all| && all[i] == m;
      assert all[|all| - 1] in all;
    }
  }

  /** Under elitism the fittest value of each generation is at least that of the one before. */
  lemma {:induction false} ElitistTrajectory(cfg: Config, s: State)
    requires cfg.eliteSize >= 0
    ensures Sorted(Trajectory(cfg, s))
    ensures Trajectory(cfg, s) != [] ==> Trajectory(cfg, s)[0] == Max(s.population)
    decreases cfg.generations - s.generation
  {
    if s.generation >= cfg.generations || s.population == [] {
      assert Trajectory(cfg, s) == [];
    } else {
      GenerationStep(cfg, s);
      var o := Step(cfg, s);
      if o.Terminated? {
        TrajectoryStops(cfg, s, o.fittest);
      } else {
        var t := o.next;
        TrajectoryContinues(cfg, s, t);
        ElitistTrajectory(cfg, t);
        if t.population != [] {
          ElitismKeepsFittest(cfg, s.generation, s.population);
        }
        SortedCons(Max(s.population), Trajectory(cfg, t));
      }
    }
  }

  /** With a non-negative elite size, what `start_evolution` returns is the best fitness score
      it recorded. */
  lemma ElitistRunReturnsBest(cfg: Config, population: seq<int>)
    requires cfg.eliteSize >= 0
    ensures Evolve(cfg, population).Returned? ==>
      Evolve(cfg, population).fittest == MaxSoFar(Trajectory(cfg, Initial(population)))
  {
    Evolution(cfg, population);
    ElitistTrajectory(cfg, Initial(population));
    SortedLastIsBest(Trajectory(cfg, Initial(population)));
  }
}
