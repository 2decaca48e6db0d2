/**
 * The older population wrapper of src/algorithm.rs: a double-ended queue of
 * programs together with the population size it was created for, and the
 * rule that picks the worst, median and best programs out of it.
 *
 * Programs are ordered by their fitness alone (src/genes/program.rs); the
 * queue holds any element type `T`, and the sort takes the fitness of an
 * element as the parameter `fitness`.
 */
module Populations {
  import opened Wrappers
  import Programs
  import Sorting

  class Population<T> {
    var programs: seq<T>
    /** The second tuple field: the size asked for, never changed afterwards. */
    const capacity: nat

    /** `Population::new`: an empty queue for `populationSize` programs. */
    constructor (populationSize: nat)
      ensures programs == [] && capacity == populationSize
    {
      programs := [];
      capacity := populationSize;
    }

    /** `get`: the program at `index`, or nothing past the end. */
    function Get(index: nat): (r: Option<T>)
      reads this
      ensures r.Some? <==> index < |programs|
      ensures r.Some? ==> r.value == programs[index]
    {
      if index < |programs| then Some(programs[index]) else None
    }

    /**
     * `sort`: the standard library's stable sort by program order, so the
     * result is a permutation, ordered, and keeps equal programs in place.
     */
    method Sort(fitness: T -> Option<real>)
      modifies this`programs
      ensures programs == Sorting.Sort(old(programs), fitness)
      ensures multiset(programs) == multiset(old(programs))
      ensures Sorting.SortedBy(programs, fitness)
    {
      programs := Sorting.Sort(programs, fitness);
    }

    /** `f_push`: adds a program at the front. */
    method FPush(value: T)
      modifies this`programs
      ensures programs == [value] + old(programs)
    {
      programs := [value] + programs;
    }

    /** `f_pop`: drops the front program; an empty queue stays empty. */
    method FPop()
      modifies this`programs
      ensures old(programs) == [] ==> programs == []
      ensures old(programs) != [] ==> programs == old(programs)[1..]
    {
      if programs != [] {
        programs := programs[1..];
      }
    }

    /** `push`: adds a program at the back. */
    method Push(value: T)
      modifies this`programs
      ensures programs == old(programs) + [value]
    {
      programs := programs + [value];
    }

    /** `len`: the number of programs held. */
    function Len(): (n: nat)
      reads this
      ensures n == |programs|
      ensures n == 0 <==> Get(0).None?
    {
      |programs|
    }

    /** `capacity`: the size the population was created for. */
    function Capacity(): (c: nat)
      ensures c == capacity
    {
      capacity
    }
  }

  /**
   * `floor(len as f64 / 2, 1) as usize`: the half length rounded down to one
   * decimal place, then truncated to an integer, which is the integer half.
   */
  function MedianIndex(len: nat): (i: nat)
    ensures i == len / 2
  {
    var half := len as real / 2.0;
    var tenths := (half * 10.0).Floor as real / 10.0;
    HalfToTenths(len);
    tenths.Floor
  }

  /** `len / 2` is already a multiple of one tenth, so rounding it to tenths keeps it. */
  lemma HalfToTenths(len: nat)
    ensures ((len as real / 2.0 * 10.0).Floor as real / 10.0).Floor == len / 2
  {
    var q, r := len / 2, len % 2;
    assert len == 2 * q + r && 0 <= r < 2;
    assert len as real / 2.0 * 10.0 == (5 * len) as real;
    assert ((5 * len) as real).Floor == 5 * len;
    assert (5 * len) as real / 10.0 == q as real + r as real / 2.0;
  }

  datatype Benchmark<T> = Benchmark(worst: T, median: T, best: T)

  /**
   * `get_benchmark_individuals`: the programs at index 0, at the median
   * index and at the last index. The `unwrap`s, and `len() - 1`, panic on an
   * empty population.
   */
  function GetBenchmarkIndividuals<T>(pop: Population<T>): (b: Benchmark<T>)
    reads pop
    requires |pop.programs| > 0
    ensures b.worst == pop.programs[0]
    ensures b.median == pop.programs[|pop.programs| / 2]
    ensures b.best == pop.programs[|pop.programs| - 1]
  {
    var worst := pop.Get(0);
    var median := pop.Get(MedianIndex(pop.Len()));
    var best := pop.Get(pop.Len() - 1);
    Benchmark(worst.value, median.value, best.value)
  }

  /** On a sorted population the three benchmarks are in program order. */
  lemma BenchmarkOrdered<T>(pop: Population<T>, fitness: T -> Option<real>)
    requires |pop.programs| > 0 && Sorting.SortedBy(pop.programs, fitness)
    ensures var b := GetBenchmarkIndividuals(pop);
            Programs.FitnessLe(fitness(b.worst), fitness(b.median)) && Programs.FitnessLe(fitness(b.median), fitness(b.best))
  {
    var n := |pop.programs|;
    if 0 < n / 2 {
      assert Programs.FitnessLe(fitness(pop.programs[0]), fitness(pop.programs[n / 2]));
    }
    if n / 2 < n - 1 {
      assert Programs.FitnessLe(fitness(pop.programs[n / 2]), fitness(pop.programs[n - 1]));
    }
  }
}
