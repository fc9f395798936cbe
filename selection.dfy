/** Ranking of a population by fitness (`sort_by_key` with `score_fitness`)
    and truncation selection of its best part (`select_top_perc`). */
module Selection {
  import opened Genes
  import opened Scoring

  /** `(len as f32 * perc) as usize` with `perc` given in tenths: 0.1 is 1
      and 0.5 is 5. The conversion to `usize` truncates toward zero. */
  function TopCount(size: nat, tenths: nat): nat
  {
    size * tenths / 10
  }

  /** A fraction of at most one never selects more than the population. */
  lemma TopCountBounded(size: nat, tenths: nat)
    requires tenths <= 10
    ensures TopCount(size, tenths) <= size
  {
    assert size * tenths <= size * 10 by {
      var d := 10 - tenths;
      assert size * 10 == size * tenths + size * d;
    }
  }

  /** A larger fraction selects at least as many individuals. */
  lemma TopCountMonotone(size: nat, small: nat, large: nat)
    requires small <= large
    ensures TopCount(size, small) <= TopCount(size, large)
  {
    assert size * small <= size * large by {
      var d := large - small;
      assert size * large == size * small + size * d;
    }
  }

  /** `select_top_perc`: `population.iter().take(n)` for the count above, so
      at most the whole population. */
  function SelectTopPerc<T>(population: seq<T>, tenths: nat): (top: seq<T>)
    ensures |top| == if TopCount(|population|, tenths) <= |population| then TopCount(|population|, tenths) else |population|
    ensures top == population[..|top|]
  {
    var n := TopCount(|population|, tenths);
    if n <= |population| then population[..n] else population
  }

  /** For a fraction of at most one the selection has exactly
      `trunc(len * fraction)` members, and the elite (a tenth) is a prefix of
      the breeding pool (a half). */
  lemma SelectionLaws<T>(population: seq<T>, tenths: nat)
    requires tenths <= 10
    ensures |SelectTopPerc(population, tenths)| == |population| * tenths / 10
    ensures SelectTopPerc(population, 1) == SelectTopPerc(population, 5)[..|SelectTopPerc(population, 1)|]
  {
    TopCountBounded(|population|, tenths);
    TopCountBounded(|population|, 1);
    TopCountBounded(|population|, 5);
    TopCountMonotone(|population|, 1, 5);
  }

  /** Ascending by fitness against `target`, stated on neighbours: each
      individual scores no worse than the one after it. */
  predicate SortedByFitness(population: seq<Chromosome>, target: Chromosome)
  {
    forall i :: 0 < i < |population| ==> Fitness(population[i - 1], target) <= Fitness(population[i], target)
  }

  /** Neighbour-wise order gives the order of every pair. */
  lemma {:induction false} SortedIsAscending(population: seq<Chromosome>, target: Chromosome, i: nat, j: nat)
    requires SortedByFitness(population, target)
    requires i <= j < |population|
    ensures Fitness(population[i], target) <= Fitness(population[j], target)
    decreases j - i
  {
    if i < j {
      SortedIsAscending(population, target, i, j - 1);
    }
  }

  /** Putting in front an individual that scores no worse than the head keeps
      the order. */
  lemma PrependSorted(c: Chromosome, sorted: seq<Chromosome>, target: Chromosome)
    requires SortedByFitness(sorted, target)
    requires |sorted| > 0 ==> Fitness(c, target) <= Fitness(sorted[0], target)
    ensures SortedByFitness([c] + sorted, target)
  {
    var r := [c] + sorted;
    forall i | 0 < i < |r| ensures Fitness(r[i - 1], target) <= Fitness(r[i], target) {
      if i > 1 {
        assert r[i - 1] == sorted[i - 2] && r[i] == sorted[i - 1];
      }
    }
  }

  /** Places `c` before the first individual that does not score better
      than it, keeping the order of the rest. */
  function Insert(c: Chromosome, sorted: seq<Chromosome>, target: Chromosome): (r: seq<Chromosome>)
    requires SortedByFitness(sorted, target)
    ensures |r| == |sorted| + 1
    ensures r[0] == c || (|sorted| > 0 && r[0] == sorted[0])
    ensures SortedByFitness(r, target)
    ensures multiset(r) == multiset(sorted) + multiset{c}
  {
    if sorted == [] || Fitness(c, target) <= Fitness(sorted[0], target) then
      PrependSorted(c, sorted, target);
      [c] + sorted
    else
      var head := sorted[0];
      var rest := Insert(c, sorted[1..], target);
      assert sorted == [head] + sorted[1..];
      assert Fitness(head, target) <= Fitness(rest[0], target);
      PrependSorted(head, rest, target);
      [head] + rest
  }

  /** The population as `sort_by_key(|c| score_fitness(c, target))` leaves
      it: a stable insertion sort by score. */
  function SortByFitness(population: seq<Chromosome>, target: Chromosome): (r: seq<Chromosome>)
    ensures SortedByFitness(r, target)
    ensures multiset(r) == multiset(population)
  {
    if population == [] then []
    else
      assert population == [population[0]] + population[1..];
      Insert(population[0], SortByFitness(population[1..], target), target)
  }

  /** Sorting keeps the size and the members of the population, and the
      individual it puts first scores no worse than any other. */
  lemma SortLaws(population: seq<Chromosome>, target: Chromosome)
    ensures |SortByFitness(population, target)| == |population|
    ensures forall c :: c in SortByFitness(population, target) <==> c in population
    ensures |population| > 0 ==>
      forall c :: c in population ==> Fitness(SortByFitness(population, target)[0], target) <= Fitness(c, target)
  {
    var sorted := SortByFitness(population, target);
    assert |sorted| == |multiset(sorted)| == |multiset(population)| == |population|;
    forall c ensures c in sorted <==> c in population {
      assert c in sorted <==> c in multiset(sorted);
      assert c in population <==> c in multiset(population);
    }
    if |population| > 0 {
      forall c | c in population ensures Fitness(sorted[0], target) <= Fitness(c, target) {
        assert c in sorted;
        var j :| 0 <= j < |sorted| && sorted[j] == c;
        SortedIsAscending(sorted, target, 0, j);
      }
    }
  }

  /** Sorting keeps the properties every member of a population shares. */
  lemma SortKeepsInvariants(population: seq<Chromosome>, target: Chromosome, genome: seq<Byte>, width: nat)
    ensures Uniform(population, width) ==> Uniform(SortByFitness(population, target), width)
    ensures AllDrawnFrom(population, genome) ==> AllDrawnFrom(SortByFitness(population, target), genome)
  {
    SortLaws(population, target);
  }
}
