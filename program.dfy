/**
 * A classification program of src/genes/program.rs: instructions over a
 * register set, scored by running them on every input, with the fitness
 * cached in the program once computed.
 *
 * What the instructions do to the registers, and the `Accuracy<Option<usize>>`
 * accumulator that turns observations into a score, live in files this model
 * does not include: they are parameters here (`exec`, `calculate`).
 */
module Programs {
  import opened Wrappers
  import opened RegisterSets

  datatype Ordering = Less | Equal | Greater

  /** `Option<FitnessScore>::cmp`: no fitness ranks below any fitness; two fitnesses compare by value. */
  function CompareFitness(a: Option<real>, b: Option<real>): (o: Ordering)
    ensures o == Equal <==> a == b
    ensures o == Less <==> (a.None? && b.Some?) || (a.Some? && b.Some? && a.value < b.value)
  {
    match (a, b)
    case (None, None) => Equal
    case (None, Some(_)) => Less
    case (Some(_), None) => Greater
    case (Some(x), Some(y)) => if x < y then Less else if x == y then Equal else Greater
  }

  /** `a <= b` in program order. */
  predicate FitnessLe(a: Option<real>, b: Option<real>)
  {
    CompareFitness(a, b) != Greater
  }

  /** Program order is a total order on fitness values: swapping the operands reverses the answer. */
  lemma CompareFitnessFlips(a: Option<real>, b: Option<real>)
    ensures CompareFitness(a, b) == Less <==> CompareFitness(b, a) == Greater
    ensures FitnessLe(a, b) || FitnessLe(b, a)
    ensures FitnessLe(a, b) && FitnessLe(b, a) ==> a == b
  {
  }

  lemma FitnessLeTransitive(a: Option<real>, b: Option<real>, c: Option<real>)
    requires FitnessLe(a, b) && FitnessLe(b, c)
    ensures FitnessLe(a, c)
  {
  }

  /** The registers after applying `instrs`, in stored order, to `regs` for the input `x`. */
  function Run<I(!new), X(!new)>(exec: (I, seq<Value>, X) -> seq<Value>, instrs: seq<I>, regs: seq<Value>, x: X): seq<Value>
  {
    if instrs == [] then regs
    else exec(instrs[|instrs| - 1], Run(exec, instrs[..|instrs| - 1], regs, x), x)
  }

  /** Instructions only write into the registers they are given: the length stays. */
  ghost predicate KeepsLength<I(!new), X(!new)>(exec: (I, seq<Value>, X) -> seq<Value>)
  {
    forall i, r, x :: |exec(i, r, x)| == |r|
  }

  lemma {:induction false} RunKeepsLength<I(!new), X(!new)>(exec: (I, seq<Value>, X) -> seq<Value>, instrs: seq<I>, regs: seq<Value>, x: X)
    requires KeepsLength(exec)
    ensures |Run(exec, instrs, regs, x)| == |regs|
  {
    if instrs != [] {
      RunKeepsLength(exec, instrs[..|instrs| - 1], regs, x);
    }
  }

  /** What `registers.argmax(n, desired)` answers for registers `s`. */
  ghost function UniqueArgmax(s: seq<Value>, n: nat, desired: nat): (r: Option<nat>)
    requires n <= |s|
  {
    if IsUniqueMax(s[..n], desired) then Some(desired) else None
  }

  /**
   * The observation recorded for each input: the unique-argmax answer over
   * the first `nClasses` registers after running the program, and the class
   * of the input.
   */
  ghost function Observations<I(!new), X(!new)>(exec: (I, seq<Value>, X) -> seq<Value>, classOf: X -> nat, nClasses: nat,
                                     instrs: seq<I>, regs: seq<Value>, inputs: seq<X>): (obs: seq<(Option<nat>, Option<nat>)>)
    requires KeepsLength(exec) && nClasses <= |regs|
    ensures |obs| == |inputs|
  {
    if inputs == [] then []
    else
      var x := inputs[|inputs| - 1];
      RunKeepsLength(exec, instrs, regs, x);
      Observations(exec, classOf, nClasses, instrs, regs, inputs[..|inputs| - 1])
        + [(UniqueArgmax(Run(exec, instrs, regs, x), nClasses, classOf(x)), Some(classOf(x)))]
  }

  class Program<I(!new), X(!new)> {
    var instructions: seq<I>
    const inputs: seq<X>
    var registers: Registers
    var fitness: Option<real>

    /**
     * `Program::generate`: `N_CLASSES + 1` zeroed registers, no fitness, and a
     * number of instructions drawn from `[0, maxInstructions)` (the range is
     * empty, and sampling panics, when `maxInstructions` is zero). The
     * instruction generator's draws are the parameter `draw`.
     */
    constructor Generate(nClasses: nat, maxInstructions: nat, inputs: seq<X>, draw: nat -> I)
      requires maxInstructions > 0
      ensures fresh(registers) && |registers.values| == nClasses + 1 && AllZero(registers.values)
      ensures fitness == None && this.inputs == inputs
      ensures |instructions| < maxInstructions
      ensures forall i :: 0 <= i < |instructions| ==> instructions[i] == draw(i)
    {
      var nInstructions :| 0 <= nInstructions < maxInstructions;
      this.inputs := inputs;
      registers := new Registers(nClasses + 1);
      instructions := seq(nInstructions, i requires 0 <= i => draw(i));
      fitness := None;
    }

    /** `cmp`: programs are ordered by their fitness alone. */
    function Compare(other: Program<I, X>): (o: Ordering)
      reads this, other
      ensures o == Equal <==> fitness == other.fitness
      ensures o == Less <==> CompareFitness(fitness, other.fitness) == Less
    {
      CompareFitness(fitness, other.fitness)
    }

    /**
     * `eval_fitness`: for each input, runs the instructions on a copy of the
     * program's registers, records the argmax answer against the input's
     * class, and scores the observations. The program itself is not changed.
     */
    method EvalFitness(exec: (I, seq<Value>, X) -> seq<Value>, classOf: X -> nat, nClasses: nat,
                       calculate: seq<(Option<nat>, Option<nat>)> -> real) returns (score: real)
      requires KeepsLength(exec) && 1 <= nClasses <= |registers.values|
      ensures score == calculate(Observations(exec, classOf, nClasses, instructions, registers.values, inputs))
    {
      var observed: seq<(Option<nat>, Option<nat>)> := [];
      for k := 0 to |inputs|
        invariant observed == Observations(exec, classOf, nClasses, instructions, registers.values, inputs[..k])
      {
        var input := inputs[k];
        var regs := new Registers.From(registers.values);
        for j := 0 to |instructions|
          invariant regs.values == Run(exec, instructions[..j], registers.values, input)
        {
          assert instructions[..j + 1][..j] == instructions[..j];
          regs.values := exec(instructions[j], regs.values, input);
        }
        assert instructions[..|instructions|] == instructions;
        RunKeepsLength(exec, instructions, registers.values, input);
        var correct := classOf(input);
        var predicted := regs.Argmax(nClasses, correct);
        assert inputs[..k + 1][..k] == inputs[..k];
        observed := observed + [(predicted, Some(correct))];
        regs.Reset();
      }
      assert inputs[..|inputs|] == inputs;
      score := calculate(observed);
    }

    /**
     * `eval_set_fitness`: `get_or_insert(eval_fitness())` evaluates first,
     * then keeps a fitness already present or stores the new one, and answers
     * the stored value.
     */
    method EvalSetFitness(exec: (I, seq<Value>, X) -> seq<Value>, classOf: X -> nat, nClasses: nat,
                          calculate: seq<(Option<nat>, Option<nat>)> -> real) returns (score: real)
      requires KeepsLength(exec) && 1 <= nClasses <= |registers.values|
      modifies this`fitness
      ensures old(fitness).Some? ==> fitness == old(fitness)
      ensures old(fitness).None? ==>
                fitness == Some(calculate(Observations(exec, classOf, nClasses, instructions, registers.values, inputs)))
      ensures fitness == Some(score)
    {
      var evaluated := EvalFitness(exec, classOf, nClasses, calculate);
      if fitness.None? {
        fitness := Some(evaluated);
      }
      score := fitness.value;
    }

    /** `get_fitness`: the stored fitness, if any. */
    function GetFitness(): (f: Option<real>)
      reads this
      ensures f == fitness
    {
      fitness
    }
  }
}
