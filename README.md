# Genetic string search, modelled in Dafny

This project models a genetic algorithm that evolves byte strings toward a fixed
target. It holds a population of individuals (chromosomes, `Vec<u8>`). Each
generation it ranks them by a Hamming-style fitness score and stops when the
best one matches the target. Otherwise it carries the best tenth over unchanged
and fills the rest of the next generation with children. Each child is the
crossover of two parents drawn from the best half, then mutated against the
genome alphabet. The run also stops at a generation cap.

The random number generator is replaced by the decisions it would have made,
supplied by the caller:

- crossover coins are a `seq<bool>`;
- mutation decisions are `MutationChoice` values (`Keep` or `Replace(genomeIndex)`);
- each child's parent indices come in a `Breeding` record;
- the positions sampled for each initial individual are a `seq<nat>`.

With those inputs every operation is deterministic.

Modules:

- `Genes` (genes.dfy): bytes, chromosomes, and the shared predicates `DrawnFrom`, `Uniform` and `Distinct`.
- `Scoring` (scoring.dfy): `score_fitness` as the loop `ScoreFitness`, proved against the function `Fitness`, and `check_match` as `CheckMatch`.
- `Reproduction` (reproduction.dfy): `crossover` and `mutate` as loops (`Crossover`, `Mutate`) proved against `Cross` and `Mutation`, and the initial sampling (`Sample`, `InitialPopulation`).
- `Selection` (selection.dfy): `select_top_perc` as `SelectTopPerc`, and the ranking `sort_by_key` as `SortByFitness`.
- `Evolution` (evolution.dfy): the body of `main`'s loop as the method `NextGeneration`, the whole loop as the method `Run`, and the function `Evolve` that specifies it.

The program's own behaviour is modelled, including where it is more lenient than requiring equal lengths, or than failing when the genome is shorter than the target:

- `check_match(a, b)` counts the equal pairs of `a.iter().zip(b)` and compares the count with `b.len()`. It therefore accepts an `a` longer than `b` whose first `b.len()` bytes equal `b`. It does not demand equal lengths. `MatchIffPerfectScore` shows that it agrees with "score is zero" for every pair of lengths.
- Initial individuals come from `choose_multiple`. When asked for more elements than the genome has, it returns all of them, so it raises no error. A genome shorter than the target therefore gives shorter individuals, not a configuration error. `SamplePicks` asks for `min(size, genome length)` distinct positions, and the shorter individuals are then penalised by the score (`ShortValuePenalised`).

## Model

| member | source | states |
|---|---|---|
| `Scoring.ScoreFitness` | src/main.rs:71-82 | the loop's result is the number of target positions `i` where `value` has no byte or a different byte |
| `Scoring.Fitness` | src/main.rs:71-82 | the score lies in `[0, len(target)]` |
| `Scoring.MismatchesBelow` | src/main.rs:74-79 | the count below `k` is at most `k`, and it is zero exactly when no position below `k` mismatches |
| `Scoring.MismatchesAreCounted` | src/main.rs:74-79 | the recursive count equals the size of the set of mismatching positions below `k` |
| `Scoring.FitnessIsMismatchCount` | src/main.rs:71-82 | the score is the cardinality of `{ i < len(target) : value[i] missing or != target[i] }` |
| `Scoring.ShortValuePenalised` | src/main.rs:74-78 | every target position beyond the end of `value` counts, so the score is at least `len(target) - len(value)` |
| `Scoring.FitnessIgnoresTail` | src/main.rs:74 | bytes of `value` past the target's length never change the score |
| `Scoring.TargetScoresZero` | src/main.rs:71-82 | the target scores 0 against itself |
| `Scoring.ScoreTable` | src/main.rs:141-152 | AAA, ABA, ABB and BBB score 3, 2, 1 and 0 against BBB |
| `Scoring.EqualPairs` | src/main.rs:119 | the zipped equal-pair count is at most both lengths, and it equals `len(b)` exactly when `a` is at least as long as `b` and agrees with it on `b`'s positions |
| `Scoring.CheckMatch` | src/main.rs:118-120 | true iff `len(a) >= len(b)` and `a[i] == b[i]` for every `i < len(b)` |
| `Scoring.MatchIffPerfectScore` | src/main.rs:118-120 | `check_match(a, b)` holds exactly when `score_fitness(a, b) == 0`, in both directions |
| `Reproduction.Crossover` | src/main.rs:84-99 | the pushed offspring equals `Cross` (heads takes `value[i]`, tails `other[i]`, over `value`'s length) |
| `Reproduction.CrossoverClosure` | src/main.rs:90-96 | the child has `value`'s length, and each byte equals the byte of one parent at the same position |
| `Reproduction.SelfCrossIsIdentity` | src/main.rs:90-96 | crossing an individual with itself returns it whatever the coins |
| `Reproduction.Mutate` | src/main.rs:101-116 | the pushed result equals `Mutation`; every replacement names an existing genome symbol, because `choose` on an empty genome panics |
| `Reproduction.MutationClosure` | src/main.rs:107-113 | mutation keeps the length, and each byte is either the original or a genome symbol |
| `Reproduction.MutationKeepsAlphabet` | src/main.rs:107-113 | an individual built from the genome stays built from the genome |
| `Reproduction.NoMutationIsIdentity` | src/main.rs:107-113 | when no mutation coin fires the individual is unchanged |
| `Reproduction.Sample` | src/main.rs:13-16 | the sampled individual has one byte per pick, is built from the genome, and repeats no symbol when neither the genome nor the picks repeat |
| `Reproduction.SampleLaws` | src/main.rs:13-16 | a sample is drawn from the genome, has at most the requested size, and repeats no symbol when the genome repeats none |
| `Reproduction.InitialPopulation` | src/main.rs:12-18 | `population_size` individuals, each the sample for its picks, all built from the genome, all of length `min(chromosome_size, len(genome))` |
| `Selection.TopCountBounded` | src/main.rs:123 | a fraction of at most one selects no more than the population |
| `Selection.SelectTopPerc` | src/main.rs:122-125 | the result is a prefix of the population, of length `min(trunc(len * perc), len)` |
| `Selection.SelectionLaws` | src/main.rs:37-40 | with a fraction of at most one the selection has exactly `trunc(len * perc)` members, and the elite tenth is a prefix of the breeding half |
| `Selection.SortByFitness` | src/main.rs:24 | the ranked population is ascending by score and is a permutation (same multiset) of the population |
| `Selection.SortedIsAscending` | src/main.rs:24 | neighbour-wise order gives `score(p[i]) <= score(p[j])` for every `i <= j` |
| `Selection.SortLaws` | src/main.rs:24-26 | ranking keeps size and members, and `population[0]` scores no worse than any member |
| `Evolution.PoolShape` | src/main.rs:37-40 | the elite has `trunc(size / 10)` members, and the pool has `trunc(size / 2)` members of the common length |
| `Evolution.NextGeneration` | src/main.rs:35-50 | the generation built by extending with the elite and pushing one bred child per remaining slot equals `NextGen` |
| `Evolution.OffspringLaws` | src/main.rs:43-47 | a child has its parents' length, takes each byte from a parent at the same position or from the genome, and stays within the genome alphabet |
| `Evolution.NextGenLaws` | src/main.rs:35-58 | the new generation has exactly `population_size` members (so the top-up loop runs zero times), starts with the elite copied verbatim, keeps the common length, and keeps the genome alphabet |
| `Evolution.ChildrenFromBestHalf` | src/main.rs:40-47 | every child's two parents lie in the best half of the ranking, and each of its bytes comes from one of them or from the genome |
| `Evolution.Run` | src/main.rs:20-66 | the loop's outcome (match at generation `i`, or cap reached) equals `Evolve` from generation 0, and its decreasing bound proves it terminates |
| `Evolution.EvolveLaws` | src/main.rs:23-66 | a run ends with a best individual that matches (score 0) at a generation below the cap, or at exactly `max_generations` with a full population; it keeps the common length and the genome alphabet |
| `Evolution.ImmediateMatch` | src/main.rs:26-33 | if some individual already matches, the run stops at this generation; if all individuals are the target, the reported best is the target |

## Left out

- Random number generation (`thread_rng`, `gen_bool`, `choose`, `choose_multiple` from the `rand` crate) is not modelled. Its results arrive as explicit coins, choices, parent indices and sample positions. `choose_multiple` is described only by the shape of its result: distinct positions, as many as the genome holds up to the requested size.
- Probabilistic behaviour is not modelled: coin fairness, the 0.1 mutation rate, uniform parent choice and eventual convergence. None of these can be stated as a contract.
- `SelectTopPerc`: the fraction is an integer number of tenths, and the count is `len * tenths / 10` in exact arithmetic. f32 rounding is not modelled. For the population of 100 used by the program, the f32 products give 10 and 50, the same counts.
- `SortByFitness`: the standard library's in-place `sort_by_key` is modelled as an insertion sort on values. Its result is proved ordered and a permutation. Its stability is not stated.
- `Run`: the "Generation i: ..." report, "Found target match", "Limit reached", `format` and `print_population` are console output and UTF-8 decoding. They are not modelled, and `Run` returns the final outcome instead of a report trace.
- `Run`: the top-up loop of lines 52-58 is represented only by the proof that it asks for zero individuals. Its body never executes, so it is not modelled.
- `Run`: panics are excluded by the precondition `ValidRun`. These are `first().unwrap()` on an empty population and `choose` on an empty breeding pool (a population below 2). The program's population of 100 meets this.
- `Run`: `ValidRun` also excludes `max_generations == 0`. With a cap of 0 the test `i == max_generations` never holds after the increment, so only a match (or overflow of the counter) would end the run. The program's cap of 100000 is positive.
- `Run`: `ValidRun` demands a population of at least 2, which also excludes a run that does not panic: a population of 1 whose only individual matches at generation 0 ends normally, because the `break` on a match (line 32) comes before any `choose` (line 43).
- `Crossover`: requires `other` to be at least as long as `value`, which is stronger than the panic condition. The program panics only when a tails coin falls at an index past the end of `other`. Every call site meets the stronger condition, because all individuals of a run share one length.
- `Run`: overflow of the generation counter is not modelled, because the counter stays below the cap. `i` and `max_generations` have no declared type, so Rust makes them `i32`.
- The genome and target literals of lines 4-5 are not modelled as constants. They become the `genome` and `target` fields of `Config`, as the population size and generation cap do.
