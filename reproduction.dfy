/** The reproduction operators `crossover` and `mutate`, and the sampling that
    builds the first generation. The random source is replaced by the choices
    it would have made, passed in by the caller. */
module Reproduction {
  import opened Genes

  /** What `rng.gen_bool(0.1)` and `genome.choose(rng)` decided for one byte:
      keep it, or replace it with the genome symbol at `genomeIndex`. */
  datatype MutationChoice = Keep | Replace(genomeIndex: nat)

  /** The choices can be carried out against a genome of `genomeSize` symbols:
      every replacement names an existing symbol (`choose` on an empty genome
      returns `None` and the `unwrap` panics). */
  predicate Feasible(choices: seq<MutationChoice>, genomeSize: nat)
  {
    forall i :: 0 <= i < |choices| && choices[i].Replace? ==> choices[i].genomeIndex < genomeSize
  }

  /** The child that crossover of `value` and `other` yields under `coins`:
      heads takes `value`'s byte, tails takes `other`'s. */
  function Cross(value: Chromosome, other: Chromosome, coins: seq<bool>): Chromosome
    requires |other| >= |value| && |coins| == |value|
  {
    seq(|value|, i requires 0 <= i < |value| => if coins[i] then value[i] else other[i])
  }

  /** `crossover`: pushes, for each index of `value`, the byte of the parent
      the coin picks. `other.get(i).unwrap()` runs only on tails, so the
      program panics only when a tails coin falls at an index past the end of
      `other`; requiring `other` to be at least as long as `value` is
      stronger than that, and every caller meets it because all individuals
      of a run share one length. */
  method Crossover(value: Chromosome, other: Chromosome, coins: seq<bool>) returns (offspring: Chromosome)
    requires |other| >= |value| && |coins| == |value|
    ensures offspring == Cross(value, other, coins)
  {
    offspring := [];
    var i := 0;
    while i < |value|
      invariant 0 <= i <= |value|
      invariant offspring == Cross(value, other, coins)[..i]
    {
      if coins[i] {
        offspring := offspring + [value[i]];
      } else {
        offspring := offspring + [other[i]];
      }
      i := i + 1;
    }
  }

  /** The child of a crossover is as long as the first parent and inherits
      each byte from one of the two parents at the same position. */
  lemma CrossoverClosure(value: Chromosome, other: Chromosome, coins: seq<bool>)
    requires |other| >= |value| && |coins| == |value|
    ensures |Cross(value, other, coins)| == |value|
    ensures forall i :: 0 <= i < |value| ==>
      Cross(value, other, coins)[i] == value[i] || Cross(value, other, coins)[i] == other[i]
  {
  }

  /** Crossing an individual with itself gives it back, whatever the coins. */
  lemma SelfCrossIsIdentity(value: Chromosome, coins: seq<bool>)
    requires |coins| == |value|
    ensures Cross(value, value, coins) == value
  {
  }

  /** The individual that `mutate` yields under `choices`. */
  function Mutation(value: Chromosome, genome: seq<Byte>, choices: seq<MutationChoice>): Chromosome
    requires |choices| == |value| && Feasible(choices, |genome|)
  {
    seq(|value|, i requires 0 <= i < |value| =>
      match choices[i]
      case Keep => value[i]
      case Replace(g) => genome[g])
  }

  /** `mutate`: pushes, for each byte of `value`, either that byte or the
      genome symbol the choice names. */
  method Mutate(value: Chromosome, genome: seq<Byte>, choices: seq<MutationChoice>) returns (mutated: Chromosome)
    requires |choices| == |value| && Feasible(choices, |genome|)
    ensures mutated == Mutation(value, genome, choices)
  {
    mutated := [];
    var i := 0;
    while i < |value|
      invariant 0 <= i <= |value|
      invariant mutated == Mutation(value, genome, choices)[..i]
    {
      match choices[i] {
        case Keep =>
          mutated := mutated + [value[i]];
        case Replace(g) =>
          mutated := mutated + [genome[g]];
      }
      i := i + 1;
    }
  }

  /** Mutation keeps the length, and each byte is either the original one or
      a genome symbol. */
  lemma MutationClosure(value: Chromosome, genome: seq<Byte>, choices: seq<MutationChoice>)
    requires |choices| == |value| && Feasible(choices, |genome|)
    ensures |Mutation(value, genome, choices)| == |value|
    ensures forall i :: 0 <= i < |value| ==>
      Mutation(value, genome, choices)[i] == value[i] || Mutation(value, genome, choices)[i] in genome
  {
  }

  /** An individual built from the genome stays built from the genome. */
  lemma MutationKeepsAlphabet(value: Chromosome, genome: seq<Byte>, choices: seq<MutationChoice>)
    requires |choices| == |value| && Feasible(choices, |genome|)
    requires DrawnFrom(value, genome)
    ensures DrawnFrom(Mutation(value, genome, choices), genome)
  {
  }

  /** When no mutation coin fires the individual is unchanged. */
  lemma NoMutationIsIdentity(value: Chromosome, genome: seq<Byte>, choices: seq<MutationChoice>)
    requires |choices| == |value| && Feasible(choices, |genome|)
    requires forall i :: 0 <= i < |choices| ==> choices[i] == Keep
    ensures Mutation(value, genome, choices) == value
  {
  }

  /** The shape of what `choose_multiple` draws from a genome of `genomeSize`
      symbols when `size` are asked for: distinct positions, as many as the
      genome has up to `size` (with `InRange`, positions of the genome). */
  predicate SamplePicks(picks: seq<nat>, genomeSize: nat, size: nat)
  {
    && |picks| == (if size <= genomeSize then size else genomeSize)
    && Distinct(picks)
  }

  /** Every pick names a position of a genome of `genomeSize` symbols. */
  predicate InRange(picks: seq<nat>, genomeSize: nat)
  {
    forall i :: 0 <= i < |picks| ==> picks[i] < genomeSize
  }

  /** The individual `choose_multiple(...).cloned().collect()` yields for
      `picks`: one genome symbol per pick, and no symbol twice when neither
      the genome nor the picks repeat. */
  function Sample(genome: seq<Byte>, picks: seq<nat>): (c: Chromosome)
    requires InRange(picks, |genome|)
    ensures |c| == |picks|
    ensures DrawnFrom(c, genome)
    ensures Distinct(genome) && Distinct(picks) ==> Distinct(c)
  {
    seq(|picks|, i requires 0 <= i < |picks| => genome[picks[i]])
  }

  /** A sampled individual is built from the genome, and sampling without
      replacement repeats no symbol unless the genome itself does. */
  lemma SampleLaws(genome: seq<Byte>, picks: seq<nat>, size: nat)
    requires InRange(picks, |genome|) && SamplePicks(picks, |genome|, size)
    ensures DrawnFrom(Sample(genome, picks), genome)
    ensures |Sample(genome, picks)| <= size
    ensures Distinct(genome) ==> Distinct(Sample(genome, picks))
  {
  }

  /** The first generation: `populationSize` individuals, each sampled
      without replacement from the genome. */
  method InitialPopulation(genome: seq<Byte>, chromosomeSize: nat, populationSize: nat, picks: seq<seq<nat>>)
    returns (population: seq<Chromosome>)
    requires |picks| == populationSize
    requires forall k :: 0 <= k < |picks| ==>
      InRange(picks[k], |genome|) && SamplePicks(picks[k], |genome|, chromosomeSize)
    ensures |population| == populationSize
    ensures forall k :: 0 <= k < |picks| ==> population[k] == Sample(genome, picks[k])
    ensures AllDrawnFrom(population, genome)
    ensures Uniform(population, if chromosomeSize <= |genome| then chromosomeSize else |genome|)
  {
    population := [];
    for k := 0 to populationSize
      invariant |population| == k
      invariant forall j :: 0 <= j < k ==> population[j] == Sample(genome, picks[j])
      invariant AllDrawnFrom(population, genome)
      invariant Uniform(population, if chromosomeSize <= |genome| then chromosomeSize else |genome|)
    {
      var chromosome := Sample(genome, picks[k]);
      SampleLaws(genome, picks[k], chromosomeSize);
      population := population + [chromosome];
    }
  }
}
