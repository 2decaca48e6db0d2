/**
 * The classification extension (src/extensions/classification.rs): a program
 * whose fitness is the accuracy of its predicted class over a fixed set of
 * inputs, cached in the program once computed.
 *
 * What an instruction does to the registers (`apply`), how the final
 * registers become a predicted class (`registers.argmax()` followed by
 * `T::argmax` on the ties, `predict` here), the class of an input (`classOf`)
 * and the `Accuracy<Option<_>>` accumulator (`calculate`) live in files this
 * model does not include: they are parameters.
 */
module Classification {
  import opened Wrappers
  import Programs

  /**
   * The observation recorded for each input, in input order: the class
   * predicted from the registers left by the instructions, and the input's
   * own class.
   */
  ghost function Observations<I(!new), X(!new), A>(apply: (I, seq<real>, X) -> seq<real>, predict: seq<real> -> Option<A>,
                                                   classOf: X -> A, instrs: seq<I>, regs: seq<real>, inputs: seq<X>)
    : (obs: seq<(Option<A>, Option<A>)>)
    ensures |obs| == |inputs|
    ensures forall k :: 0 <= k < |inputs| ==>
              obs[k] == (predict(Programs.Run(apply, instrs, regs, inputs[k])), Some(classOf(inputs[k])))
  {
    if inputs == [] then []
    else
      var x := inputs[|inputs| - 1];
      Observations(apply, predict, classOf, instrs, regs, inputs[..|inputs| - 1])
        + [(predict(Programs.Run(apply, instrs, regs, x)), Some(classOf(x)))]
  }

  class Program<I(!new), X(!new), A> {
    var instructions: seq<I>
    var registers: seq<real>
    const inputs: seq<X>
    var fitness: Option<real>

    constructor (instructions: seq<I>, registers: seq<real>, inputs: seq<X>, fitness: Option<real>)
      ensures this.instructions == instructions && this.registers == registers
      ensures this.inputs == inputs && this.fitness == fitness
    {
      this.instructions, this.registers := instructions, registers;
      this.inputs, this.fitness := inputs, fitness;
    }

    /**
     * `eval_fitness`: for each input, applies the instructions in stored
     * order to a copy of the program's registers, observes the predicted
     * class against the input's class, and scores the observations. The
     * program itself is not changed.
     */
    method EvalFitness(apply: (I, seq<real>, X) -> seq<real>, predict: seq<real> -> Option<A>, classOf: X -> A,
                       calculate: seq<(Option<A>, Option<A>)> -> real) returns (score: real)
      ensures score == calculate(Observations(apply, predict, classOf, instructions, registers, inputs))
    {
      var observed: seq<(Option<A>, Option<A>)> := [];
      for k := 0 to |inputs|
        invariant observed == Observations(apply, predict, classOf, instructions, registers, inputs[..k])
      {
        var input := inputs[k];
        var regs := registers;
        for j := 0 to |instructions|
          invariant regs == Programs.Run(apply, instructions[..j], registers, input)
        {
          assert instructions[..j + 1][..j] == instructions[..j];
          regs := apply(instructions[j], regs, input);
        }
        assert instructions[..|instructions|] == instructions;
        var predicted := predict(regs);
        var correct := classOf(input);
        assert inputs[..k + 1][..k] == inputs[..k];
        observed := observed + [(predicted, Some(correct))];
      }
      assert inputs[..|inputs|] == inputs;
      score := calculate(observed);
    }

    /**
     * `eval_set_fitness`: `get_or_insert(eval_fitness())` evaluates first,
     * then keeps a fitness already present or stores the new one, and answers
     * the stored value.
     */
    method EvalSetFitness(apply: (I, seq<real>, X) -> seq<real>, predict: seq<real> -> Option<A>, classOf: X -> A,
                          calculate: seq<(Option<A>, Option<A>)> -> real) returns (score: real)
      modifies this`fitness
      ensures old(fitness).Some? ==> fitness == old(fitness)
      ensures old(fitness).None? ==>
                fitness == Some(calculate(Observations(apply, predict, classOf, instructions, registers, inputs)))
      ensures fitness == Some(score)
    {
      var evaluated := EvalFitness(apply, predict, classOf, calculate);
      if fitness.None? {
        fitness := Some(evaluated);
      }
      score := fitness.value;
    }

    /** `get_fitness`: the stored fitness, if any. */
    function GetFitness(): (f: Option<real>)
      reads this
      ensures f == fitness
    {
      fitness
    }
  }

  /** The accuracy is computed once: a second `eval_set_fitness` answers what the first stored. */
  method EvalSetFitnessTwice<I(!new), X(!new), A>(p: Program<I, X, A>, apply: (I, seq<real>, X) -> seq<real>,
                                                   predict: seq<real> -> Option<A>, classOf: X -> A,
                                                   calculate: seq<(Option<A>, Option<A>)> -> real)
    returns (first: real, second: real)
    modifies p
    ensures first == second && p.fitness == Some(first)
  {
    first := p.EvalSetFitness(apply, predict, classOf, calculate);
    second := p.EvalSetFitness(apply, predict, classOf, calculate);
  }
}
