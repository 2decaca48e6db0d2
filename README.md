# Linear genetic programming engine: a verified model

This project models the core of a linear genetic programming (LGP) engine in
Dafny. An LGP program is a list of instructions over a register file. Its
fitness is either the accuracy of its predicted class over a data set or its
median score over several reinforcement-learning episodes. A population of
programs is evolved generation by generation through four phases:

- evaluate;
- rank;
- cut by a retention gap;
- refill by crossover, mutation and cloning.

Optional hooks can stop the run with an error after each phase.

The model has one module per source file:

| module | file | what it holds |
|---|---|---|
| `LinkedLists` | `linked_list.dfy` | the crossover list: heap nodes, a list with `head`, `tail` and `length` fields, and a cycling cursor whose `swap` exchanges a segment of two lists by rewiring `next` pointers |
| `RegisterSets` | `registers.dfy` | the register file: new, reset, update, bounds-checked read, and the unique-argmax test |
| `Containers` | `containers.dfy` | a register file paired with an index |
| `Metrics` | `metrics.dfy` | the `Accuracy` counter |
| `Programs` | `program.dfy` | the classification program of the generic API: generation, order by fitness, per-input evaluation, cached fitness |
| `Sorting` | `sorting.dfy` | the sort that `sort`, `rank` and the median use |
| `Classification` | `classification.dfy` | the classification extension's program |
| `ReinforcementLearning` | `reinforcement_learning.dfy` | rewards, the tie-set argmax, the episode loop with its environment protocol, and the Q-table |
| `Populations` | `population.dfy` | the older population deque and its worst/median/best rule |
| `GeneticAlgorithm` | `genetic_algorithm.dfy` | the population operators and the generation loop with its hooks |
| `Wrappers` | `wrappers.dfy` | `Option` and `Result` |

The code updates state in place in these places, and the model does too:

- the linked list and its cursor are classes over heap nodes;
- programs, the `Accuracy` counter, the Q-table and the populations are
  classes whose methods assign their fields;
- register resets, argmax, evaluation, breeding, selection and the
  generation loop are methods with loops.

Pure code becomes functions and lemmas: orderings, rewards, index rules,
hooks, and the schedule of phases.

What the model takes as parameters:

- Instruction semantics: `exec`, `apply`.
- The class predicted from the registers: `predict`.
- The class of an input: `classOf`.
- The `Accuracy<Option<_>>` accumulator of the observation files: `calculate`.
- The variation operators: `mutate`, `crossover`.
- Organism generation: `generate`, `draw`.
- Randomness: `draw` functions or `:|` choices.

The reinforcement-learning environment is a class that records the calls it
receives. Its answers come from a `respond` parameter.

Where a call would panic in the source (an index out of range, an `unwrap` on
`None`, a `usize` underflow, a modulo by zero, an `assert!`, a seek that never
stops), the model states the condition as a `requires`. Where the source
handles an error (a hook returning `Err`), the model returns a `Result`.

Three behaviours of the generation loop are easy to misread, and the model
keeps them as the code has them:

- **Sort order.** `rank` sorts in ascending program order (no fitness first,
  then by increasing fitness). It does not sort descending. `apply_selection`
  asserts `first <= last`, which only holds for that order.
- **Who `apply_selection` removes.** It pops `floor((1 - gap) * len)`
  organisms from the back of the ranked buffer. That is the top of the order,
  not the bottom, and it keeps `ceil(gap * len)` organisms.
- **Fewer than two survivors.** `breed` does not fall back to
  mutation-only reproduction. Its loop only makes progress when it can choose
  two parents, so the model requires two members or no crossover or mutation
  work.

Two behaviours of the list cursor's `swap` are kept as well:

- **Seeks wrap.** `seek_before(idx)` stops at index `(idx - 1) % length`, so
  an index past the `length` field lands on a position counted from the
  front again (`SeekPosition`).
- **The other end is checked against this list.** The assertions of `swap`
  bound `other_end_idx` by this list's length, not the other's. A larger
  other end passes them and wraps (`OtherEndWraps`).

## Model

| member | source | states |
|---|---|---|
| `LinkedLists.Node.constructor` | src/utils/linked_list.rs:241-243 | a new node carries its data and points nowhere |
| `LinkedLists.Node.PointTo` | src/utils/linked_list.rs:254-258 | the node now points at the given node and returns the pointer it held before |
| `LinkedLists.LinkedList.constructor` | src/utils/linked_list.rs:274-280 | a new list is valid with an empty chain, no head or tail, and length 0 |
| `LinkedLists.LinkedList.Len` | src/utils/linked_list.rs:369-371 | the `length` field, which is the number of chained nodes whenever the counter is up to date |
| `LinkedLists.LinkedList.IsEmpty` | src/utils/linked_list.rs:288-290 | with an up-to-date counter, true exactly when the chain is empty |
| `LinkedLists.LinkedList.Head` | src/utils/linked_list.rs:333-335 | no head exactly when the list holds nothing; otherwise the head carries the first element |
| `LinkedLists.LinkedList.Tail` | src/utils/linked_list.rs:337-339 | with an up-to-date tail: none on an empty list, present from two elements on, and it carries the last element |
| `LinkedLists.LinkedList.Append` | src/utils/linked_list.rs:292-317 | the length grows by one and the list stays a null-terminated chain. The new node is linked after the tail, or after the head when no tail is set (a one-element list has none); the chain is cut after that node and ends with x. With an up-to-date tail the contents become old contents + [x] |
| `LinkedLists.LinkedList.Dequeue` | src/utils/linked_list.rs:319-331 | returns the old head, and the contents lose their first element (FIFO with Append). The tail is cleared when the list empties, and `length` is never decremented |
| `LinkedLists.LinkedList.Clear` | src/utils/linked_list.rs:282-286 | dequeues until no head is left: empty chain, tail cleared, `length` left as it was |
| `LinkedLists.LinkedList.Extend` | src/utils/linked_list.rs:465-471 | appending every element in order, on any valid list: the length grows by \|xs\| and the list stays valid. With an up-to-date tail, the contents become old contents + xs and the tail stays up to date |
| `LinkedLists.LinkedList.CutAfter` | src/utils/linked_list.rs:98-117 | breaking the chain after its `used`-th node: this list keeps the first `used` elements, with that node as tail and length `used`; a fresh list holds the rest, with the old tail and the remaining length |
| `LinkedLists.LinkedList.Take` | src/utils/linked_list.rs:118-121 | `mem::replace` with a new list: the old list moves out whole and an empty one is left |
| `LinkedLists.SameElements` | src/utils/linked_list.rs:518-519 | the element-by-element walk answers true exactly when the two lists hold the same elements |
| `LinkedLists.Equals` | src/utils/linked_list.rs:514-520 | true exactly when the length fields agree and the element sequences are equal |
| `LinkedLists.NotEqualsAsWritten` | src/utils/linked_list.rs:522-524 | `ne` as written: true only when both the lengths and the elements differ |
| `LinkedLists.NotEqualMissesDifferentElements` | src/utils/linked_list.rs:522-524 | two one-element lists with different elements are not equal, yet `ne` as written calls them not unequal |
| `LinkedLists.NotEquals` | src/utils/linked_list.rs:514-524 | `ne` as the negation of `eq` |
| `LinkedLists.NextVisitsInOrder` | src/utils/linked_list.rs:54-74 | from the ghost front, the k-th `next` lands on element k - 1 |
| `LinkedLists.NextWrapsAround` | src/utils/linked_list.rs:54-74 | after the last element the cursor reaches the position past the tail, then the head again |
| `LinkedLists.NextOnEmptyStays` | src/utils/linked_list.rs:54-74 | on an empty list the cursor never leaves the ghost front |
| `LinkedLists.Cursor.constructor` | src/utils/linked_list.rs:361-367 | a cursor starts at the ghost front of its list |
| `LinkedLists.Cursor.Current` | src/utils/linked_list.rs:47-52 | the element under the cursor, or nothing at the ghost front or past the tail |
| `LinkedLists.Cursor.Next` | src/utils/linked_list.rs:54-74 | the index moves as `NextIndex` says, and the cursor stays on the node at that index |
| `LinkedLists.Cursor.Reset` | src/utils/linked_list.rs:124-127 | back to the ghost front |
| `LinkedLists.Cursor.Seek` | src/utils/linked_list.rs:78-83 | stops at index `idx % length`, on that node or, when the index is the chain's size, just past the tail with no node; needs a non-zero length (the modulo panics otherwise) and a reachable target |
| `LinkedLists.Cursor.SeekBefore` | src/utils/linked_list.rs:85-90 | stops at index `(idx - 1) % length`, on that node or just past the tail; `idx = 0` underflows and is excluded |
| `LinkedLists.Cursor.SeekAfter` | src/utils/linked_list.rs:92-94 | stops at index `(idx + 1) % length`, on that node or just past the tail |
| `LinkedLists.Cursor.SplitAfter` | src/utils/linked_list.rs:96-122 | on a node at index i: keeps the first i + 1 elements (length i + 1, tail = current) and returns the rest. At the ghost front: moves the whole list out and leaves an empty one |
| `LinkedLists.Cursor.CrossAt` | src/utils/linked_list.rs:203-220 | `seek_before` on both cursors, then crossing the `next` pointers there. With x and y the seek positions of the two indices, this list becomes own[..x] + other[y..], the other becomes other[..y] + own[x..], and the two chains stay disjoint |
| `LinkedLists.Cursor.Swap` | src/utils/linked_list.rs:172-235 | nothing changes if either `length` field is 0. Otherwise both chains and contents become `CrossTwiceAt` of the old ones at the seek positions of the four indices (an absent end standing for the `length` field), for stale `length` fields and wrapping indices too; `length` and `tail` are not touched |
| `LinkedLists.Cursor.CrossBoth` | src/utils/linked_list.rs:203-234 | the two crossings of `swap`, at the starts and then at the ends, leave `CrossTwiceAt` of the old chains and contents at the seek positions |
| `LinkedLists.SeekPosition` | src/utils/linked_list.rs:78-90 | the 1-based position `seek_before(idx)` stops at lies in 1..length, and is idx itself when idx <= length |
| `LinkedLists.SeekPositionIsModulo` | src/utils/linked_list.rs:78-90 | that position is `(idx - 1) % length + 1`, the index `seek` computes plus one |
| `LinkedLists.Cross` | src/utils/linked_list.rs:209-220 | one exchange of successors: the crossed lists have lengths x + (\|b\| - y) and y + (\|a\| - x) |
| `LinkedLists.CrossConservesElements` | src/utils/linked_list.rs:203-234 | one exchange, and the two of `swap`, keep the multiset union of the two lists |
| `LinkedLists.CrossMembers` | src/utils/linked_list.rs:209-220 | every node of the crossed chains comes from one of the two old chains |
| `LinkedLists.RewiredIsSegments` | src/utils/linked_list.rs:172-235 | when no index wraps, the two exchanges at the seek positions give `SwapSegments` |
| `LinkedLists.UnwrappedSwapIsSegments` | src/utils/linked_list.rs:172-235 | for up-to-date `length` fields, any arguments that pass `swap`'s assertions with `other_start < other_end <= other length` make `swap`'s result `SwapSegments(a, b, start, other_start, end, other_end)` |
| `LinkedLists.OtherEndWraps` | src/utils/linked_list.rs:191-199 | lists of lengths 5 and 3 with starts 1, 1 and ends 2, 5 pass the assertions and the seeks stop; the other end wraps to position 2, so the result is `SwapSegments` with other end 2 |
| `LinkedLists.Rewire` | src/utils/linked_list.rs:217-220 | the pointer crossing between two disjoint chains yields own[..x] + other[y..] and other[..y] + own[x..] |
| `LinkedLists.SwapExchanges` | src/utils/linked_list.rs:172-235 | with segments of equal length, `swap` is a true exchange: a[..s] + b[os..oe] + a[e..] and b[..os] + a[s..e] + b[oe..] |
| `LinkedLists.SwapConservesElements` | src/utils/linked_list.rs:172-235 | the two lists together keep every element: the multiset union is unchanged |
| `LinkedLists.SwapLengths` | src/utils/linked_list.rs:172-235 | each list gains what it takes and loses what it gives; a list keeps its length exactly when the two segments have equal length |
| `LinkedLists.CrossTwice` | src/utils/linked_list.rs:203-234 | crossing at the starts and then at the ends gives `SwapSegments` |
| `RegisterSets.Registers.constructor` | src/registers.rs:12-14 | n registers, all zero |
| `RegisterSets.Registers.From` | src/registers.rs:16-18 | the registers hold the given values |
| `RegisterSets.Registers.Reset` | src/registers.rs:20-26 | every register is zero and the length is unchanged |
| `RegisterSets.Registers.Len` | src/registers.rs:28-31 | the number of registers |
| `RegisterSets.Registers.Update` | src/registers.rs:33-36 | register `index` takes the value and every other register keeps its value; an index past the end panics |
| `RegisterSets.Registers.GetValueAtIndex` | src/registers.rs:38-45 | the value at `index`, required to be in range (the source panics otherwise) |
| `RegisterSets.Registers.Argmax` | src/registers.rs:49-73 | `Some(desired)` exactly when `desired` is the only index among the first `n_classes` holding their maximum, `None` otherwise; needs 1 <= n_classes <= len for the `unwrap`s |
| `RegisterSets.UniqueMaxByIndices` | src/registers.rs:63-70 | "the index set of the maximum is {desired}" is the same as "desired is the unique maximiser" |
| `RegisterSets.SeqMax` | src/registers.rs:63 | the largest value: attained, and no value exceeds it |
| `Containers.New` | src/containers.rs:7-9 | stores the registers and the index unchanged |
| `Containers.CollectionIndexPair.GetValue` | src/containers.rs:11-15 | the register at the stored index, which must be in range |
| `Containers.CollectionIndexPair.GetIndex` | src/containers.rs:17-19 | the stored index |
| `Containers.NewThenGet` | src/containers.rs:7-19 | reading back a new pair gives the index and the register at it |
| `Metrics.Accuracy.constructor` | src/metrics.rs:17-19 | the two counters start at the given values |
| `Metrics.Accuracy.Observe` | src/metrics.rs:26-34 | the total grows by one and the correct count by one exactly on `true`; never more correct than counted is kept |
| `Metrics.Accuracy.Calculate` | src/metrics.rs:36-39 | the ratio: result × total = correct, in [0, 1] when correct <= total; needs total > 0 (0/0 otherwise) |
| `Metrics.ObservedFromZero` | src/metrics.rs:17-34 | from `new(0, 0)`, k observations count k in total and the number of `true`s as correct, never more than the total |
| `Metrics.CountTrue` | src/metrics.rs:26-34 | the number of `true` observations is at most the number of observations |
| `Programs.CompareFitness` | src/genes/program.rs:52-68 | equal exactly on equal fitness; less exactly when the left has none and the right has one, or both have one and the left is smaller |
| `Programs.CompareFitnessFlips` | src/genes/program.rs:52-68 | the order is total and antisymmetric: swapping operands swaps less and greater |
| `Programs.FitnessLeTransitive` | src/genes/program.rs:52-68 | the order is transitive |
| `Programs.Program.Generate` | src/genes/program.rs:76-104 | N_CLASSES + 1 zero registers, no fitness, the given inputs, and fewer than `max_instructions` instructions, each drawn in turn; `UniformInt::new(0, 0)` panics, so needs max_instructions > 0 |
| `Programs.Program.Compare` | src/genes/program.rs:56-58 | programs compare by fitness alone |
| `Programs.Program.EvalFitness` | src/genes/program.rs:111-135 | the score of the observations: for each input, the unique-argmax of the registers left by the instructions run on a copy of the program's registers, paired with the input's class. The program is not changed |
| `Programs.Observations` | src/genes/program.rs:116-130 | one observation per input |
| `Programs.RunKeepsLength` | src/genes/program.rs:119-124 | running instructions that keep the register count keeps it |
| `Programs.Program.EvalSetFitness` | src/genes/program.rs:137-139 | keeps a fitness already present, otherwise stores the evaluated one; answers the stored value |
| `Programs.Program.GetFitness` | src/genes/program.rs:141-143 | the stored fitness |
| `Sorting.Insert` | src/algorithm.rs:35-37 | inserting adds exactly one copy of the element |
| `Sorting.InsertSorted` | src/algorithm.rs:35-37 | inserting into a sorted sequence leaves it sorted |
| `Sorting.Sort` | src/algorithm.rs:35-37 | the result is a permutation of the input and is sorted in program order |
| `Classification.Observations` | src/extensions/classification.rs:42-56 | one observation per input, in input order: the class predicted from the registers the instructions leave, and `Some` of the input's class |
| `Classification.Program.EvalFitness` | src/extensions/classification.rs:37-59 | the accuracy of `Observations`: each input starts from a copy of the program's registers, and the program is not changed |
| `Classification.Program.EvalSetFitness` | src/extensions/classification.rs:61-63 | keeps a fitness already present, otherwise stores the evaluated one; answers the stored value |
| `Classification.Program.GetFitness` | src/extensions/classification.rs:65-67 | the stored fitness |
| `Classification.EvalSetFitnessTwice` | src/extensions/classification.rs:61-63 | the second call answers what the first stored |
| `ReinforcementLearning.StateRewardPair.GetValue` | src/extensions/reinforcement_learning.rs:45-50 | the payload of whichever reward variant is present |
| `ReinforcementLearning.StateRewardPair.IsTerminal` | src/extensions/reinforcement_learning.rs:52-57 | true exactly for a terminal reward |
| `ReinforcementLearning.RewardFromAccessors` | src/extensions/reinforcement_learning.rs:44-58 | the two accessors together give back the reward |
| `ReinforcementLearning.IndicesEqual` | src/extensions/reinforcement_learning.rs:80-85 | exactly the indices holding the value, in increasing order |
| `ReinforcementLearning.Argmax` | src/extensions/reinforcement_learning.rs:72-88 | an action index below N_ACTION_REGISTERS whose register holds the maximum of the action registers; needs at least one action register |
| `ReinforcementLearning.ArgmaxReachesEveryTie` | src/extensions/reinforcement_learning.rs:80-87 | an index can be chosen by some random draw exactly when it is one of the tied maximisers |
| `ReinforcementLearning.Environment.constructor` | src/extensions/reinforcement_learning.rs:60-66 | an environment that has seen no calls yet |
| `ReinforcementLearning.Environment.Init` | src/extensions/reinforcement_learning.rs:61 | records `init` |
| `ReinforcementLearning.Environment.Act` | src/extensions/reinforcement_learning.rs:62 | answers the pair `respond` gives for the history and the action, and records the call |
| `ReinforcementLearning.Environment.Reset` | src/extensions/reinforcement_learning.rs:63 | records `reset` |
| `ReinforcementLearning.Environment.Finish` | src/extensions/reinforcement_learning.rs:65 | records `finish` |
| `ReinforcementLearning.ExtendEpisode` | src/extensions/reinforcement_learning.rs:108-120 | a further step adds its reward to the score and its `act` call to the log, and the episode still ends at its first terminal reward |
| `ReinforcementLearning.ExtendRuns` | src/extensions/reinforcement_learning.rs:105-124 | a further run adds its `act` calls and a `reset` to the log, and its score to the scores |
| `ReinforcementLearning.Scores` | src/extensions/reinforcement_learning.rs:122 | one score per run, in run order |
| `ReinforcementLearning.Median` | src/extensions/reinforcement_learning.rs:126-129 | the entry at index n / 2 of an ascending arrangement of the scores |
| `ReinforcementLearning.Program.PlayEpisode` | src/extensions/reinforcement_learning.rs:106-121 | at most `max_episode_length` steps, stopping right after the first terminal reward; every step runs the program on the registers and the log so far, picks the `Argmax` of the resulting registers for that step's draw, and gets the environment's answer to that action (`Plays`); the registers end as the last execution left them; the score is the sum of the rewards; the environment sees exactly the episode's `act` calls |
| `ReinforcementLearning.Program.EvalFitness` | src/extensions/reinforcement_learning.rs:97-134 | `n_runs` episodes, each played by the program as `PlayEpisode` says, from the log left by `init` and the runs before it and from the registers the previous run left; the environment sees `init`, then each run's `act` calls followed by `reset`, then `finish`; the fitness is the median score, also stored; needs n_runs >= 1 (`remove` panics otherwise) |
| `ReinforcementLearning.Program.PlayRuns` | src/extensions/reinforcement_learning.rs:105-124 | one score per run; every run well-formed and played from the log and registers the runs before it left (`RunsPlay`); the environment sees each run's `act` calls then `reset` |
| `ReinforcementLearning.ExtendPlays` | src/extensions/reinforcement_learning.rs:108-120 | one more step of execute, `Argmax` and `act` after the steps before extends the episode's play |
| `ReinforcementLearning.ExtendRunPlays` | src/extensions/reinforcement_learning.rs:105-124 | one more run, started from the previous run's registers and the log so far, extends the runs' play |
| `ReinforcementLearning.Program.GetFitness` | src/extensions/reinforcement_learning.rs:136-138 | the stored fitness |
| `ReinforcementLearning.QTable.constructor` | src/extensions/reinforcement_learning.rs:159-166 | `n_registers` rows of `n_actions` zeros, with the given step size and discount |
| `ReinforcementLearning.QTable.ActionArgmax` | src/extensions/reinforcement_learning.rs:168-184 | the first index of the largest value when that value is above 0, else `(-1i32) as usize`; a missing row panics |
| `ReinforcementLearning.BestActionIs` | src/extensions/reinforcement_learning.rs:168-184 | the running-best answer is the only one meeting that description |
| `ReinforcementLearning.FirstIndexOf` | src/extensions/reinforcement_learning.rs:176-181 | the first index holding the value |
| `ReinforcementLearning.MaxValue` | src/extensions/reinforcement_learning.rs:176-181 | the largest value of a row: attained, and nothing exceeds it |
| `ReinforcementLearning.SetCellChangesOneCell` | src/extensions/reinforcement_learning.rs:199 | writing one cell changes that cell only and keeps every row length |
| `ReinforcementLearning.Step` | src/extensions/reinforcement_learning.rs:196-197 | the update moves the old value by alpha times the temporal-difference error: alpha 0 keeps it, alpha 1 replaces it with the target |
| `ReinforcementLearning.QTable.Update` | src/extensions/reinforcement_learning.rs:186-200 | as written: only the current cell changes, and its next-state term is the argmax INDEX of the next row |
| `ReinforcementLearning.IndexIsNotValue` | src/extensions/reinforcement_learning.rs:194 | for the row [0, 5] the next-state term as written is 1, while the row's largest value is 5 |
| `ReinforcementLearning.QTable.UpdateWithMaxValue` | src/extensions/reinforcement_learning.rs:186-200 | corrected: only the current cell changes, and its next-state term is the largest value of the next row |
| `Populations.Population.constructor` | src/algorithm.rs:18-21 | an empty population with capacity n |
| `Populations.Population.Get` | src/algorithm.rs:31-33 | the program at the index exactly when the index is in range, nothing past the end |
| `Populations.Population.Sort` | src/algorithm.rs:35-37 | the programs become a sorted permutation of the old ones |
| `Populations.Population.FPush` | src/algorithm.rs:39-41 | adds at the front |
| `Populations.Population.FPop` | src/algorithm.rs:43-45 | drops the front program; an empty population stays empty |
| `Populations.Population.Push` | src/algorithm.rs:47-49 | adds at the back |
| `Populations.Population.Len` | src/algorithm.rs:51-53 | the number of programs, 0 exactly when `get(0)` finds nothing |
| `Populations.Population.Capacity` | src/algorithm.rs:55-57 | the size the population was created for |
| `Populations.MedianIndex` | src/algorithm.rs:103 | rounding len / 2 down to one decimal place and truncating gives the integer half |
| `Populations.HalfToTenths` | src/algorithm.rs:103 | the half of a natural number is already a multiple of one tenth |
| `Populations.GetBenchmarkIndividuals` | src/algorithm.rs:100-108 | worst at index 0, median at len / 2, best at len - 1; an empty population panics |
| `Populations.BenchmarkOrdered` | src/algorithm.rs:100-108 | on a sorted population, worst <= median <= best in program order |
| `GeneticAlgorithm.Population.WithCapacity` | src/core/algorithm.rs:70 | an empty buffer with the given capacity |
| `GeneticAlgorithm.Population.Push` | src/core/algorithm.rs:74 | adds at the back |
| `GeneticAlgorithm.Population.Pop` | src/core/algorithm.rs:100 | drops the last organism; an empty buffer stays empty |
| `GeneticAlgorithm.Population.Sort` | src/core/algorithm.rs:87 | the organisms become a sorted permutation of the old ones |
| `GeneticAlgorithm.InitPopulation` | src/core/algorithm.rs:69-78 | exactly `population_size` organisms, the i-th being the i-th generated, with that capacity |
| `GeneticAlgorithm.Evaluate` | src/core/algorithm.rs:80-84 | every organism, and only it, is replaced by its evaluated self, in place |
| `GeneticAlgorithm.Rank` | src/core/algorithm.rs:86-88 | the population becomes an ascending permutation of itself |
| `GeneticAlgorithm.SortedEnds` | src/core/algorithm.rs:93 | a ranked population meets `first <= last` |
| `GeneticAlgorithm.Cutoff` | src/core/algorithm.rs:97 | the number to remove never exceeds the population size |
| `GeneticAlgorithm.KeptIsCeiling` | src/core/algorithm.rs:95-101 | the survivors number at least gap × len and fewer than gap × len + 1, that is, ceil(gap × len) |
| `GeneticAlgorithm.ApplySelection` | src/core/algorithm.rs:90-102 | with 0 <= gap <= 1 and first <= last (both asserted), the population keeps its prefix and loses its last `floor((1 - gap) × len)` organisms |
| `GeneticAlgorithm.Todo` | src/core/algorithm.rs:115-117 | a rate's share of the free places never exceeds them |
| `GeneticAlgorithm.TodosFit` | src/core/algorithm.rs:109-119 | with rates in [0, 1] summing to at most 1, the mutation and crossover shares together fit the free places (the assertion at line 119 holds) |
| `GeneticAlgorithm.BredPush` | src/core/algorithm.rs:155-171 | pushing an explained child keeps every new organism explained |
| `GeneticAlgorithm.BredSize` | src/core/algorithm.rs:104-173 | the size after breeding lies between the old length and the capacity |
| `GeneticAlgorithm.FillsToCapacity` | src/core/algorithm.rs:165-172 | breeding fills the population to capacity exactly when the places left for clones do not exceed the organisms available to clone |
| `GeneticAlgorithm.Breed` | src/core/algorithm.rs:104-173 | keeps the old organisms as a prefix; with R = capacity - len, the first floor(nc × R) + floor(nm × R) new organisms hold exactly floor(nc × R) crossover children of two distinct organisms and floor(nm × R) mutants (`BredMix`), and every later one is a clone, no organism cloned twice; the size is `BredSize` |
| `GeneticAlgorithm.BreedPairs` | src/core/algorithm.rs:121-163 | the loop pushes exactly the owed number of crossover children and of mutants, each explained by its parents, lowers the remaining room by one per child, and keeps the old organisms as a prefix |
| `GeneticAlgorithm.FillWithClones` | src/core/algorithm.rs:165-172 | pushes `min(remaining, len)` organisms, each a clone of an organism present before, no two of the same one (`choose_multiple` draws without replacement), and keeps the rest |
| `GeneticAlgorithm.EventHooks.WithAfterInit` | src/core/algorithm.rs:248-253 | sets the `after_init` hook and leaves every other hook as it was |
| `GeneticAlgorithm.EventHooks.WithAfterEvaluate` | src/core/algorithm.rs:255-260 | sets the `after_evaluate` hook and leaves every other hook as it was |
| `GeneticAlgorithm.EventHooks.WithAfterSelection` | src/core/algorithm.rs:262-267 | sets the `after_selection` hook and leaves every other hook as it was |
| `GeneticAlgorithm.EventHooks.WithAfterRank` | src/core/algorithm.rs:269-274 | sets the `after_rank` hook and leaves every other hook as it was |
| `GeneticAlgorithm.EventHooks.WithAfterBreed` | src/core/algorithm.rs:276-281 | sets the `after_breed` hook and leaves every other hook as it was |
| `GeneticAlgorithm.DefaultHooks` | src/core/algorithm.rs:299-311 | no hook is set |
| `GeneticAlgorithm.RunHook` | src/core/algorithm.rs:192-194 | a stage without a hook never fails |
| `GeneticAlgorithm.Schedule` | src/core/algorithm.rs:190-225 | `after_init` once, then four stages per generation |
| `GeneticAlgorithm.SchedulePrefix` | src/core/algorithm.rs:196-225 | a run of fewer generations is a prefix of a longer one |
| `GeneticAlgorithm.ScheduleGrows` | src/core/algorithm.rs:196-225 | one further generation's stages extend the schedule |
| `GeneticAlgorithm.HalfGapSustains` | src/core/algorithm.rs:90-173 | with gap 0.5 and at least three organisms, every generation refills the population to its size |
| `GeneticAlgorithm.RunGeneration` | src/core/algorithm.rs:197-224 | evaluate, rank, select and breed, with a hook after each. Each population offered is what its phase makes of the one before (`PhasesFollow`): every organism evaluated; then their stable sort; then the sort without its last `Cutoff` organisms; then that kept as a prefix with every child explained by a crossover, mutation or clone, in the counts the rates fix (`BredMix`) and at the size `breed` reaches (`BredSize`). The stages reached are a prefix of the generation's four; every earlier hook passed; the error is the last hook's; the population is the last one offered, and without an error it is back at its size |
| `GeneticAlgorithm.EvaluateAndRank` | src/core/algorithm.rs:197-207 | the population offered after evaluation is every organism evaluated, the one after ranking is its stable sort; the stages reached are a prefix of the two; the error is the last hook's; without an error the ends of the ranked population are in fitness order |
| `GeneticAlgorithm.FinishGeneration` | src/core/algorithm.rs:209-224 | once evaluation and ranking passed their hooks, selection and breeding complete the generation: everything offered follows its phases (`PhasesFollow`), every earlier hook passed, the error is the last hook's, and without an error the population is back at its size |
| `GeneticAlgorithm.PhasesCompose` | src/core/algorithm.rs:197-224 | what evaluation and ranking offered, followed by what selection and breeding offered, follows the generation's phases |
| `GeneticAlgorithm.HooksCompose` | src/core/algorithm.rs:197-224 | the hooks of the first half, followed by those of the second, run in the generation's order, every one before the last passing and the last giving the error |
| `GeneticAlgorithm.SelectAndBreed` | src/core/algorithm.rs:209-224 | on a full, ranked population: the population offered after selection is the old one without its last `Cutoff` organisms; the one offered after breeding keeps it as a prefix, explains every child, holds the crossover children, mutants and distinct clones the rates fix (`BredMix`), and has size `BredSize`, whatever the hook answers; the error is the last hook's |
| `GeneticAlgorithm.Execute` | src/core/algorithm.rs:175-228 | the first population offered is the generated one; every generation begun starts from the last population of the one before and offers what its phases make of it (`GenerationFollows`), including the mix of children its breeding made and the size it reached. The stages reached are a prefix of the schedule, and every hook before the last passed. `Err` carries the error of the hook that stopped the run. `Ok` means the whole schedule ran and the result is the last population offered, at its size |
| `GeneticAlgorithm.GenerationRefills` | src/core/algorithm.rs:196-224 | under `Sustains`, a generation that begins at the population size offers a bred population of that size again |
| `GeneticAlgorithm.EveryGenerationFull` | src/core/algorithm.rs:196-225 | under `Sustains`, every generation of a run begun at `population_size` organisms starts at `population_size` |
| `GeneticAlgorithm.GenerationFollowsExtend` | src/core/algorithm.rs:196-225 | a finished generation keeps following its phases when later populations are offered |
| `GeneticAlgorithm.GenerationFollowsNext` | src/core/algorithm.rs:196-225 | a generation that starts at the last population offered follows its phases |
| `GeneticAlgorithm.RunExtends` | src/core/algorithm.rs:196-225 | appending one generation keeps every generation of the run following its phases |

## Left out

- Floating point: register values, rewards, rates, the gap, the accuracy and the Q update are exact reals. `f32` rounding, NaN, `OrderedFloat` and `R32` are not modelled. Neither are the `f32`/`f64`/`i32`/`usize` conversions, except the `(-1i32) as usize` sentinel, which assumes a 64-bit target.
- Integer widths: counters and lengths are unbounded naturals. `usize` overflow is not modelled.
- `src/core/population.rs` is not part of this model. Its buffer is taken to behave like a `Vec`: `push` and `pop` work at the back, and `first`/`last` are the two ends.
- Organisms in the generation loop are values: `eval_set_fitness` is a function from an organism to its evaluated self, and `fitness` gives the order `sort` uses.
- Hooks are functions of the population that may answer an error. A hook that changes the population is not modelled.
- `init_env` (logger set-up) and `load_inputs` (CSV reading) are I/O.
- Instruction semantics, `mutate`, `two_point_crossover`, `Instruction::generate`, the `Accuracy<Option<_>>` accumulator, `T::argmax` and `get_class` live in files this model does not include. They are parameters.
- Randomness (`generator()`, `GENERATOR`, `choose_multiple`, `choose`, `UniformInt`) is a parameter or a `:|` choice, not a pseudo-random generator.
- The reinforcement-learning environment's internals, including `get_state`, are a `respond` parameter. `QProgram::eval_fitness` and `get_fitness` are `todo!()` in the source and are not modelled.
- Classification: the `registers.reset()` at the end of each input only clears a copy that is dropped straight after, so it has no visible effect and is not modelled.
- `Display`, `Debug`, `Serialize`, `Clone`, `Drop`, the `Iter`/`IterMut`/`IntoIter` iterators and the list's `Ord` implementation are left out. So are the unsafe deallocation (`Box::leak`, `Box::from_raw`) and `Node::remove_next`, which is `point_to(None)`.
- Sorting.Sort: stability (equal elements keep their order) holds but is not stated. Only the permutation and the order are.
- GeneticAlgorithm.Execute: requires that every generation refills the population to its size (`Sustains`). Its first half, at least two survivors or nothing owed, is what `breed`'s loop needs to make progress; runs that break it are excluded because the source then loops for ever. Its second half, that the clones can fill the room left, excludes every configuration in which the clones cannot refill to `population_size`, although the source finishes those normally with a smaller population. For example, with `population_size` 10, gap 0.1 and both rates 0, selection removes floor(0.9 × 10) = 9 organisms, `breed` owes nothing and pushes one clone (`choose_multiple` asked for 9 of 1), and `execute` returns `Ok` with a population of 2.
- LinkedLists.Cursor.Swap: requires the assertions of `swap` to pass (`SwapAsserts`), both start indices to be at least 1 (`seek_before(0)` underflows), and each of the four seeks to target a node inside the chain it walks at that moment (`SwapStops`). Otherwise the source's seek either never stops (a target beyond the position past the tail) or stops past the tail, where `current.unwrap()` panics. Its `ensures` gives the result as `CrossTwiceAt`; the `SwapSegments` form for up-to-date lengths is the separate lemma `UnwrappedSwapIsSegments`.
- LinkedLists.Cursor.Seek: requires the target to be a node of a non-empty chain or the position just past its tail, because when a stale `length` puts the target further out, or the chain is empty, the source's seek never stops.
- Programs.Program.EvalFitness: the predicted class is the registers' unique argmax for the input's class (`registers.argmax(N_CLASSES, correct_index)`). The program's inputs are a field, not a borrowed slice.

## Findings

| source | as written | input that shows it | evidently intended | confidence | as-written member | corrected member |
|---|---|---|---|---|---|---|
| src/extensions/reinforcement_learning.rs:194 | the next-state term of the Q update is `action_argmax(next_register) as f32`, the index of the best action | next row [0, 5]: the term is 1, while the best next-state value is 5 | the largest Q value of the next row (Q-learning's max over next actions) | high; not executed | `ReinforcementLearning.QTable.Update` (shown by `ReinforcementLearning.IndexIsNotValue`) | `ReinforcementLearning.QTable.UpdateWithMaxValue` |
| src/utils/linked_list.rs:522-524 | `ne` is `len != len && iter().ne(other)`, so it is true only when both the lengths and the elements differ | two one-element lists [1] and [2]: `eq` is false and `ne` is false as well | `ne` as the negation of `eq` | high; not executed | `LinkedLists.NotEqualsAsWritten` (shown by `LinkedLists.NotEqualMissesDifferentElements`) | `LinkedLists.NotEquals` |
