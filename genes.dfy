/** Shared vocabulary of the genetic algorithm: symbols, chromosomes and
    the invariants that whole populations keep. */
module Genes {

  /** A `u8`: one symbol of the genome alphabet or of an individual. */
  newtype Byte = b: int | 0 <= b < 0x100

  /** An individual (`Vec<u8>` in the program). */
  type Chromosome = seq<Byte>

  /** Every symbol of `c` occurs in the genome alphabet. */
  predicate DrawnFrom(c: Chromosome, genome: seq<Byte>)
  {
    forall i :: 0 <= i < |c| ==> c[i] in genome
  }

  /** Every individual of the population is built from the genome alphabet. */
  predicate AllDrawnFrom(population: seq<Chromosome>, genome: seq<Byte>)
  {
    forall c :: c in population ==> DrawnFrom(c, genome)
  }

  /** Every individual of the population has length `width`. */
  predicate Uniform(population: seq<Chromosome>, width: nat)
  {
    forall c :: c in population ==> |c| == width
  }

  /** No symbol occurs twice in `s`. */
  predicate Distinct<T(==)>(s: seq<T>)
  {
    forall i, j :: 0 <= i < j < |s| ==> s[i] != s[j]
  }
}
