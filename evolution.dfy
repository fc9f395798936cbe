/** The generation loop of `main`: rank, report the best, stop on a match,
    otherwise carry the elite over and breed the rest of the next generation
    from the breeding pool, until the generation cap. */
module Evolution {
  import opened Genes
  import opened Scoring
  import opened Reproduction
  import opened Selection

  /** The elite carried over verbatim is the top tenth of the ranking. */
  const EliteTenths: nat := 1
  /** Parents are drawn from the top half of the ranking. */
  const PoolTenths: nat := 5

  /** The random decisions behind one child: the two parents drawn (with
      replacement) from the breeding pool, the crossover coins and the
      mutation choices. */
  datatype Breeding = Breeding(parent1: nat, parent2: nat, coins: seq<bool>, mutations: seq<MutationChoice>)

  /** The run's fixed inputs: genome alphabet, target, population size and
      generation cap. */
  datatype Config = Config(genome: seq<Byte>, target: Chromosome, populationSize: nat, maxGenerations: nat)

  /** How a run ends: the best individual of generation `generation` matched
      the target, or the cap was reached with `population` in hand. */
  datatype Outcome =
    | Matched(generation: nat, best: Chromosome)
    | LimitReached(generation: nat, population: seq<Chromosome>)

  /** One child's decisions fit a pool of `poolSize` individuals of length
      `width` and a genome of `genomeSize` symbols. */
  predicate ValidBreeding(b: Breeding, poolSize: nat, width: nat, genomeSize: nat)
  {
    && b.parent1 < poolSize
    && b.parent2 < poolSize
    && |b.coins| == width
    && |b.mutations| == width
    && Feasible(b.mutations, genomeSize)
  }

  /** One generation's decisions: one breeding per child still needed after
      the elite, each one feasible. */
  predicate ValidSchedule(breedings: seq<Breeding>, populationSize: nat, width: nat, genomeSize: nat)
  {
    && |breedings| == populationSize - TopCount(populationSize, EliteTenths)
    && forall k :: 0 <= k < |breedings| ==>
         ValidBreeding(breedings[k], TopCount(populationSize, PoolTenths), width, genomeSize)
  }

  /** `mutate(&crossover(p1, p2, rng), &genome, rng)` for the decisions `b`. */
  function Offspring(pool: seq<Chromosome>, b: Breeding, genome: seq<Byte>, width: nat): Chromosome
    requires Uniform(pool, width) && ValidBreeding(b, |pool|, width, |genome|)
  {
    assert pool[b.parent1] in pool && pool[b.parent2] in pool;
    Mutation(Cross(pool[b.parent1], pool[b.parent2], b.coins), genome, b.mutations)
  }

  /** The breeding pool of a ranked population has `TopCount(.., PoolTenths)`
      members of the common length. */
  lemma PoolShape(sorted: seq<Chromosome>, width: nat)
    requires Uniform(sorted, width)
    ensures |SelectTopPerc(sorted, PoolTenths)| == TopCount(|sorted|, PoolTenths)
    ensures |SelectTopPerc(sorted, EliteTenths)| == TopCount(|sorted|, EliteTenths)
    ensures Uniform(SelectTopPerc(sorted, PoolTenths), width)
  {
    TopCountBounded(|sorted|, PoolTenths);
    TopCountBounded(|sorted|, EliteTenths);
    var pool := SelectTopPerc(sorted, PoolTenths);
    forall c | c in pool ensures c in sorted {
      var j :| 0 <= j < |pool| && pool[j] == c;
      assert sorted[j] == c;
    }
  }

  /** The next generation built from the ranked population `sorted`: the
      elite, then one child per breeding. */
  function NextGen(sorted: seq<Chromosome>, genome: seq<Byte>, breedings: seq<Breeding>, width: nat): seq<Chromosome>
    requires Uniform(sorted, width)
    requires ValidSchedule(breedings, |sorted|, width, |genome|)
  {
    PoolShape(sorted, width);
    var pool := SelectTopPerc(sorted, PoolTenths);
    SelectTopPerc(sorted, EliteTenths)
      + seq(|breedings|, k requires 0 <= k < |breedings| => Offspring(pool, breedings[k], genome, width))
  }

  /** Lines 35-50 of the loop body: `new_generation` is extended with the
      elite and then one child per remaining slot is pushed onto it. */
  method NextGeneration(population: seq<Chromosome>, genome: seq<Byte>, populationSize: nat,
                        breedings: seq<Breeding>, ghost width: nat)
    returns (newGeneration: seq<Chromosome>)
    requires |population| == populationSize
    requires Uniform(population, width)
    requires ValidSchedule(breedings, populationSize, width, |genome|)
    ensures newGeneration == NextGen(population, genome, breedings, width)
  {
    PoolShape(population, width);
    newGeneration := [];
    var top10Perc := SelectTopPerc(population, EliteTenths);
    newGeneration := newGeneration + top10Perc;
    var top50Perc := SelectTopPerc(population, PoolTenths);
    var children := populationSize - |newGeneration|;
    for k := 0 to children
      invariant |newGeneration| == |top10Perc| + k
      invariant newGeneration[..|top10Perc|] == top10Perc
      invariant forall j :: 0 <= j < k ==>
        newGeneration[|top10Perc| + j] == Offspring(top50Perc, breedings[j], genome, width)
    {
      var b := breedings[k];
      var p1 := top50Perc[b.parent1];
      var p2 := top50Perc[b.parent2];
      assert p1 in top50Perc && p2 in top50Perc;
      var child := Crossover(p1, p2, b.coins);
      child := Mutate(child, genome, b.mutations);
      newGeneration := newGeneration + [child];
    }
  }

  /** A child is as long as its parents and takes each byte from one of them,
      at the same position, or from the genome. */
  lemma OffspringLaws(pool: seq<Chromosome>, b: Breeding, genome: seq<Byte>, width: nat)
    requires Uniform(pool, width) && ValidBreeding(b, |pool|, width, |genome|)
    ensures |Offspring(pool, b, genome, width)| == width
    ensures forall i :: 0 <= i < width ==>
      var child := Offspring(pool, b, genome, width);
      child[i] == pool[b.parent1][i] || child[i] == pool[b.parent2][i] || child[i] in genome
    ensures AllDrawnFrom(pool, genome) ==> DrawnFrom(Offspring(pool, b, genome, width), genome)
  {
    assert pool[b.parent1] in pool && pool[b.parent2] in pool;
    var crossed := Cross(pool[b.parent1], pool[b.parent2], b.coins);
    CrossoverClosure(pool[b.parent1], pool[b.parent2], b.coins);
    MutationClosure(crossed, genome, b.mutations);
    if AllDrawnFrom(pool, genome) {
      assert DrawnFrom(crossed, genome);
      MutationKeepsAlphabet(crossed, genome, b.mutations);
    }
  }

  /** A new generation has exactly as many members as the old one, begins
      with the elite copied verbatim, and keeps the common length. Built from
      the genome in, built from the genome out. */
  lemma NextGenLaws(sorted: seq<Chromosome>, genome: seq<Byte>, breedings: seq<Breeding>, width: nat)
    requires Uniform(sorted, width)
    requires ValidSchedule(breedings, |sorted|, width, |genome|)
    ensures |NextGen(sorted, genome, breedings, width)| == |sorted|
    ensures NextGen(sorted, genome, breedings, width)[..TopCount(|sorted|, EliteTenths)]
         == sorted[..TopCount(|sorted|, EliteTenths)]
    ensures Uniform(NextGen(sorted, genome, breedings, width), width)
    ensures AllDrawnFrom(sorted, genome) ==> AllDrawnFrom(NextGen(sorted, genome, breedings, width), genome)
  {
    PoolShape(sorted, width);
    var next := NextGen(sorted, genome, breedings, width);
    var pool := SelectTopPerc(sorted, PoolTenths);
    var e := |SelectTopPerc(sorted, EliteTenths)|;
    if AllDrawnFrom(sorted, genome) {
      assert AllDrawnFrom(pool, genome) by {
        forall c | c in pool ensures c in sorted {
          var j :| 0 <= j < |pool| && pool[j] == c;
          assert sorted[j] == c;
        }
      }
    }
    forall c | c in next ensures |c| == width && (AllDrawnFrom(sorted, genome) ==> DrawnFrom(c, genome)) {
      var j :| 0 <= j < |next| && next[j] == c;
      if j < e {
        assert c == sorted[j] && c in sorted;
      } else {
        assert c == Offspring(pool, breedings[j - e], genome, width);
        OffspringLaws(pool, breedings[j - e], genome, width);
      }
    }
  }

  /** Every child of a new generation has both parents among the best half
      of the ranking, and takes each byte from one of them or from the genome. */
  lemma ChildrenFromBestHalf(sorted: seq<Chromosome>, genome: seq<Byte>, breedings: seq<Breeding>, width: nat, k: nat)
    requires Uniform(sorted, width)
    requires ValidSchedule(breedings, |sorted|, width, |genome|)
    requires k < |breedings|
    ensures TopCount(|sorted|, EliteTenths) + k < |NextGen(sorted, genome, breedings, width)|
    ensures breedings[k].parent1 < |sorted| / 2 && breedings[k].parent2 < |sorted| / 2
    ensures forall i :: 0 <= i < width ==>
      var child := NextGen(sorted, genome, breedings, width)[TopCount(|sorted|, EliteTenths) + k];
      child[i] == sorted[breedings[k].parent1][i] || child[i] == sorted[breedings[k].parent2][i] || child[i] in genome
  {
    NextGenLaws(sorted, genome, breedings, width);
    PoolShape(sorted, width);
    var pool := SelectTopPerc(sorted, PoolTenths);
    var b := breedings[k];
    OffspringLaws(pool, b, genome, width);
    assert pool[b.parent1] == sorted[b.parent1] && pool[b.parent2] == sorted[b.parent2];
  }

  /** The conditions under which the program runs without a panic:
      `population.first()` needs a non-empty population, `choose` on the
      breeding pool needs at least two individuals, `i == max_generations` is
      only ever met after the increment when the cap is positive, and every
      generation's decisions are feasible for individuals of length `width`. */
  predicate ValidRun(cfg: Config, width: nat, schedule: seq<seq<Breeding>>)
  {
    && cfg.populationSize >= 2
    && cfg.maxGenerations >= 1
    && |schedule| == cfg.maxGenerations
    && forall g :: 0 <= g < |schedule| ==> ValidSchedule(schedule[g], cfg.populationSize, width, |cfg.genome|)
  }

  /** The run from generation `generation` on, with `population` in hand. */
  function Evolve(cfg: Config, width: nat, population: seq<Chromosome>, generation: nat, schedule: seq<seq<Breeding>>): Outcome
    requires ValidRun(cfg, width, schedule)
    requires generation < cfg.maxGenerations
    requires |population| == cfg.populationSize && Uniform(population, width)
    decreases cfg.maxGenerations - generation
  {
    SortLaws(population, cfg.target);
    SortKeepsInvariants(population, cfg.target, cfg.genome, width);
    var sorted := SortByFitness(population, cfg.target);
    if CheckMatch(sorted[0], cfg.target) then Matched(generation, sorted[0])
    else
      NextGenLaws(sorted, cfg.genome, schedule[generation], width);
      var next := NextGen(sorted, cfg.genome, schedule[generation], width);
      if generation + 1 == cfg.maxGenerations then LimitReached(generation + 1, next)
      else Evolve(cfg, width, next, generation + 1, schedule)
  }

  /** `main` from line 20 on: the loop over generations with the population
      it was given, stopping on a match or at the cap. */
  method Run(cfg: Config, ghost width: nat, initial: seq<Chromosome>, schedule: seq<seq<Breeding>>)
    returns (outcome: Outcome)
    requires ValidRun(cfg, width, schedule)
    requires |initial| == cfg.populationSize && Uniform(initial, width)
    ensures outcome == Evolve(cfg, width, initial, 0, schedule)
  {
    var population := initial;
    var i := 0;
    while true
      invariant i < cfg.maxGenerations
      invariant |population| == cfg.populationSize && Uniform(population, width)
      invariant Evolve(cfg, width, population, i, schedule) == Evolve(cfg, width, initial, 0, schedule)
      decreases cfg.maxGenerations - i
    {
      ghost var current := population;
      SortLaws(population, cfg.target);
      SortKeepsInvariants(population, cfg.target, cfg.genome, width);
      population := SortByFitness(population, cfg.target);
      var best := population[0];
      if CheckMatch(best, cfg.target) {
        return Matched(i, best);
      }
      population := NextGeneration(population, cfg.genome, cfg.populationSize, schedule[i], width);
      NextGenLaws(SortByFitness(current, cfg.target), cfg.genome, schedule[i], width);
      // The top-up of lines 52-58 asks for `population_size - population.len()`
      // fresh individuals, which is none.
      assert cfg.populationSize - |population| == 0;
      i := i + 1;
      if i == cfg.maxGenerations {
        return LimitReached(i, population);
      }
    }
  }

  /** A run ends either with a matching best individual, found before the
      cap, or at the cap with a full population; every individual it reports
      keeps the common length and, when the run started from the genome,
      is built from the genome. */
  lemma {:induction false} EvolveLaws(cfg: Config, width: nat, population: seq<Chromosome>, generation: nat,
                                      schedule: seq<seq<Breeding>>)
    requires ValidRun(cfg, width, schedule)
    requires generation < cfg.maxGenerations
    requires |population| == cfg.populationSize && Uniform(population, width)
    ensures var o := Evolve(cfg, width, population, generation, schedule);
      && (o.Matched? ==>
            && CheckMatch(o.best, cfg.target)
            && Fitness(o.best, cfg.target) == 0
            && generation <= o.generation < cfg.maxGenerations
            && |o.best| == width
            && (AllDrawnFrom(population, cfg.genome) ==> DrawnFrom(o.best, cfg.genome)))
      && (o.LimitReached? ==>
            && o.generation == cfg.maxGenerations
            && |o.population| == cfg.populationSize
            && Uniform(o.population, width)
            && (AllDrawnFrom(population, cfg.genome) ==> AllDrawnFrom(o.population, cfg.genome)))
    decreases cfg.maxGenerations - generation
  {
    SortLaws(population, cfg.target);
    SortKeepsInvariants(population, cfg.target, cfg.genome, width);
    var sorted := SortByFitness(population, cfg.target);
    if CheckMatch(sorted[0], cfg.target) {
      MatchIffPerfectScore(sorted[0], cfg.target);
      assert sorted[0] in sorted;
    } else {
      NextGenLaws(sorted, cfg.genome, schedule[generation], width);
      var next := NextGen(sorted, cfg.genome, schedule[generation], width);
      if generation + 1 < cfg.maxGenerations {
        EvolveLaws(cfg, width, next, generation + 1, schedule);
      }
    }
  }

  /** When some individual of the population already matches, the run stops
      at this very generation; when every individual is the target, the best
      reported is the target itself. */
  lemma ImmediateMatch(cfg: Config, width: nat, population: seq<Chromosome>, generation: nat,
                       schedule: seq<seq<Breeding>>, c: Chromosome)
    requires ValidRun(cfg, width, schedule)
    requires generation < cfg.maxGenerations
    requires |population| == cfg.populationSize && Uniform(population, width)
    requires c in population && CheckMatch(c, cfg.target)
    ensures Evolve(cfg, width, population, generation, schedule).Matched?
    ensures Evolve(cfg, width, population, generation, schedule).generation == generation
    ensures (forall d :: d in population ==> d == cfg.target) ==>
      Evolve(cfg, width, population, generation, schedule).best == cfg.target
  {
    SortLaws(population, cfg.target);
    var sorted := SortByFitness(population, cfg.target);
    MatchIffPerfectScore(c, cfg.target);
    MatchIffPerfectScore(sorted[0], cfg.target);
    assert sorted[0] in sorted;
  }
}
