/**
 * The generation loop of src/core/algorithm.rs: a population buffer filled
 * by `init_population`, then, generation after generation, evaluated,
 * ranked, cut by the gap and refilled by crossover, mutation and clones,
 * with optional hooks after each phase.
 *
 * Organisms are values of a type `O`. What the source leaves to the organism
 * type, or to files this model does not include, is a parameter:
 * `generate(i)` is the `i`-th organism `O::generate` draws, `evalSetFitness`
 * the organism after `eval_set_fitness`, `fitness` the value organisms are
 * ordered by, `mutate` and `crossover` the two variation operators (the
 * crossover's two children, of which the source keeps one at random).
 * Random choices are `:|` choices.
 */
module GeneticAlgorithm {
  import opened Wrappers
  import Programs
  import Sorting

  /**
   * The population buffer of src/core/population.rs as the generation loop
   * uses it: a vector of organisms with the capacity it was created for.
   */
  class Population<O> {
    var members: seq<O>
    const capacity: nat

    /** `Population::with_capacity`: empty, for `capacity` organisms. */
    constructor WithCapacity(capacity: nat)
      ensures members == [] && this.capacity == capacity
    {
      members := [];
      this.capacity := capacity;
    }

    /** `push`: adds an organism at the back. */
    method Push(o: O)
      modifies this`members
      ensures members == old(members) + [o]
    {
      members := members + [o];
    }

    /** `pop`: drops the organism at the back; an empty buffer stays empty. */
    method Pop()
      modifies this`members
      ensures old(members) == [] ==> members == []
      ensures old(members) != [] ==> members == old(members)[..|old(members)| - 1]
    {
      if members != [] {
        members := members[..|members| - 1];
      }
    }

    /** `sort`: the stable sort by organism order. */
    method Sort(fitness: O -> Option<real>)
      modifies this`members
      ensures members == Sorting.Sort(old(members), fitness)
      ensures multiset(members) == multiset(old(members)) && Sorting.SortedBy(members, fitness)
    {
      members := Sorting.Sort(members, fitness);
    }
  }

  /** The organisms `generate` makes for indices below `n`, in order. */
  function Generated<O>(n: nat, generate: nat -> O): (s: seq<O>)
    ensures |s| == n && forall i :: 0 <= i < n ==> s[i] == generate(i)
  {
    seq(n, (i: int) requires 0 <= i => generate(i))
  }

  /** `init_population`: exactly `populationSize` freshly generated organisms, in generation order. */
  method InitPopulation<O>(populationSize: nat, generate: nat -> O) returns (p: Population<O>)
    ensures fresh(p) && p.capacity == populationSize
    ensures |p.members| == populationSize
    ensures forall i :: 0 <= i < populationSize ==> p.members[i] == generate(i)
  {
    p := new Population.WithCapacity(populationSize);
    for i := 0 to populationSize
      invariant |p.members| == i
      invariant forall k :: 0 <= k < i ==> p.members[k] == generate(k)
    {
      p.Push(generate(i));
    }
  }

  /** `evaluate`: every organism, in place, after `eval_set_fitness`. */
  method Evaluate<O>(p: Population<O>, evalSetFitness: O -> O)
    modifies p`members
    ensures Evaluated(old(p.members), p.members, evalSetFitness)
  {
    for i := 0 to |p.members|
      invariant |p.members| == |old(p.members)|
      invariant forall k :: 0 <= k < i ==> p.members[k] == evalSetFitness(old(p.members)[k])
      invariant forall k :: i <= k < |p.members| ==> p.members[k] == old(p.members)[k]
    {
      p.members := p.members[i := evalSetFitness(p.members[i])];
    }
  }

  /** `rank`: the population sorted ascending by organism order. */
  method Rank<O>(p: Population<O>, fitness: O -> Option<real>)
    modifies p`members
    ensures p.members == Sorting.Sort(old(p.members), fitness)
    ensures multiset(p.members) == multiset(old(p.members)) && Sorting.SortedBy(p.members, fitness)
  {
    p.Sort(fitness);
  }

  /** `((1 - gap) * len).floor()`: how many organisms selection removes. */
  function Cutoff(gap: real, len: nat): (c: nat)
    requires 0.0 <= gap <= 1.0
    ensures c <= len
  {
    CutoffBounds(gap, len);
    ((1.0 - gap) * len as real).Floor
  }

  lemma CutoffBounds(gap: real, len: nat)
    requires 0.0 <= gap <= 1.0
    ensures 0 <= ((1.0 - gap) * len as real).Floor <= len
  {
    assert 0.0 <= (1.0 - gap) * len as real <= len as real;
  }

  /** The survivors of selection are the ceiling of `gap * len`. */
  lemma {:induction false} KeptIsCeiling(gap: real, len: nat)
    requires 0.0 <= gap <= 1.0
    ensures var kept := len - Cutoff(gap, len);
            gap * len as real <= kept as real < gap * len as real + 1.0
  {
    var x := (1.0 - gap) * len as real;
    assert x.Floor as real <= x < x.Floor as real + 1.0;
    assert len as real - x == gap * len as real;
  }

  /**
   * `apply_selection`: the gap must lie in [0, 1] and the buffer must be
   * ranked at its ends (both asserted); then the last `Cutoff` organisms are
   * popped.
   */
  method ApplySelection<O>(p: Population<O>, gap: real, fitness: O -> Option<real>)
    requires 0.0 <= gap <= 1.0
    requires p.members != [] ==> Programs.FitnessLe(fitness(p.members[0]), fitness(p.members[|p.members| - 1]))
    modifies p`members
    ensures p.members == old(p.members)[..|old(p.members)| - Cutoff(gap, |old(p.members)|)]
  {
    var popLen := |p.members|;
    var cutoffIndex := Cutoff(gap, popLen);
    for i := 0 to cutoffIndex
      invariant p.members == old(p.members)[..popLen - i]
    {
      p.Pop();
    }
  }

  /** `(rate * remaining).floor()`: how many children of one kind `breed` owes. */
  function Todo(rate: real, remaining: nat): (t: nat)
    requires 0.0 <= rate <= 1.0
    ensures t <= remaining
  {
    TodoBounds(rate, remaining);
    (rate * remaining as real).Floor
  }

  lemma TodoBounds(rate: real, remaining: nat)
    requires 0.0 <= rate <= 1.0
    ensures 0 <= (rate * remaining as real).Floor <= remaining
  {
    assert 0.0 <= rate * remaining as real <= remaining as real;
  }

  /** The rates of a valid configuration never owe more children than there is room for (the `assert_le!` of `breed`). */
  lemma TodosFit(nMutations: real, nCrossovers: real, remaining: nat)
    requires 0.0 <= nMutations <= 1.0 && 0.0 <= nCrossovers <= 1.0 && nMutations + nCrossovers <= 1.0
    ensures Todo(nMutations, remaining) + Todo(nCrossovers, remaining) <= remaining
  {
    var r := remaining as real;
    assert nMutations * r + nCrossovers * r == (nMutations + nCrossovers) * r <= r;
  }

  /** Where a bred organism comes from, by indices of earlier organisms. */
  datatype Origin = Crossover(a: nat, b: nat, second: bool) | Mutation(parent: nat) | Clone(source: nat)

  /** `s[i]` is what `o` makes of organisms before it. */
  ghost predicate Explains<O>(o: Origin, s: seq<O>, i: nat, mutate: O -> O, crossover: (O, O) -> (O, O))
    requires i < |s|
  {
    match o
    case Crossover(a, b, second) =>
      a < i && b < i && a != b && s[i] == (if second then crossover(s[a], s[b]).1 else crossover(s[a], s[b]).0)
    case Mutation(x) => x < i && s[i] == mutate(s[x])
    case Clone(x) => x < i && s[i] == s[x]
  }

  /** Every organism from index `from` on is explained by its origin. */
  ghost predicate Bred<O>(s: seq<O>, from: nat, origins: seq<Origin>, mutate: O -> O, crossover: (O, O) -> (O, O))
  {
    && from + |origins| == |s|
    && forall k :: 0 <= k < |origins| ==> Explains(origins[k], s, from + k, mutate, crossover)
  }

  /** Pushing an organism explained by earlier ones extends a bred population. */
  lemma BredPush<O>(s: seq<O>, from: nat, origins: seq<Origin>, o: Origin, x: O, mutate: O -> O, crossover: (O, O) -> (O, O))
    requires Bred(s, from, origins, mutate, crossover)
    requires Explains(o, s + [x], |s|, mutate, crossover)
    ensures Bred(s + [x], from, origins + [o], mutate, crossover)
  {
    var t := s + [x];
    var all := origins + [o];
    forall k | 0 <= k < |all|
      ensures Explains(all[k], t, from + k, mutate, crossover)
    {
      if k < |origins| {
        assert all[k] == origins[k];
        assert Explains(origins[k], s, from + k, mutate, crossover);
        var i := from + k;
        match origins[k]
        case Crossover(a, b, _) => assert t[a] == s[a] && t[b] == s[b] && t[i] == s[i];
        case Mutation(y) => assert t[y] == s[y] && t[i] == s[i];
        case Clone(y) => assert t[y] == s[y] && t[i] == s[i];
      }
    }
  }

  /** How many of `os` are crossover children. */
  function CrossoverCount(os: seq<Origin>): (n: nat)
    ensures n <= |os|
  {
    if os == [] then 0 else CrossoverCount(os[..|os| - 1]) + (if os[|os| - 1].Crossover? then 1 else 0)
  }

  /** How many of `os` are mutants. */
  function MutationCount(os: seq<Origin>): (n: nat)
    ensures n <= |os|
  {
    if os == [] then 0 else MutationCount(os[..|os| - 1]) + (if os[|os| - 1].Mutation? then 1 else 0)
  }

  /** One more origin adds one to the count of its kind. */
  lemma CountsPush(os: seq<Origin>, o: Origin)
    ensures CrossoverCount(os + [o]) == CrossoverCount(os) + (if o.Crossover? then 1 else 0)
    ensures MutationCount(os + [o]) == MutationCount(os) + (if o.Mutation? then 1 else 0)
  {
    assert (os + [o])[..|os|] == os;
  }

  /** Every origin of `os` is a clone of one of the first `bound` organisms, and no organism is cloned twice. */
  ghost predicate DistinctClones(os: seq<Origin>, bound: nat)
  {
    && (forall k :: 0 <= k < |os| ==> os[k].Clone? && os[k].source < bound)
    && (forall j, k :: 0 <= j < k < |os| ==> os[j].source != os[k].source)
  }

  /**
   * The children `breed` appends to `len` organisms when it fills to
   * `capacity`: with `R` the room, first `floor(nCrossovers * R)` crossover
   * children and `floor(nMutations * R)` mutants (in some interleaving, and
   * nothing else), then clones of distinct organisms among those already
   * present.
   */
  ghost predicate BredMix(os: seq<Origin>, len: nat, capacity: nat, nMutations: real, nCrossovers: real)
    requires 0.0 <= nMutations <= 1.0 && 0.0 <= nCrossovers <= 1.0
  {
    && len <= capacity
    && var nc, nm := Todo(nCrossovers, capacity - len), Todo(nMutations, capacity - len);
       && nc + nm <= |os|
       && CrossoverCount(os[..nc + nm]) == nc && MutationCount(os[..nc + nm]) == nm
       && DistinctClones(os[nc + nm..], len + nc + nm)
  }

  function Min(a: nat, b: nat): nat
  {
    if a <= b then a else b
  }

  /**
   * The population size `breed` leaves: the owed crossover and mutation
   * children, then as many clones as there is room left for, but no more
   * than the population then holds (`choose_multiple` draws without
   * replacement).
   */
  function BredSize(len: nat, capacity: nat, nMutations: real, nCrossovers: real): (n: nat)
    requires len <= capacity
    requires 0.0 <= nMutations <= 1.0 && 0.0 <= nCrossovers <= 1.0 && nMutations + nCrossovers <= 1.0
    ensures len <= n <= capacity
  {
    var remaining := capacity - len;
    TodosFit(nMutations, nCrossovers, remaining);
    var owed := Todo(nMutations, remaining) + Todo(nCrossovers, remaining);
    len + owed + Min(remaining - owed, len + owed)
  }

  /** `breed` refills to capacity exactly when the clones find enough organisms to copy. */
  lemma FillsToCapacity(len: nat, capacity: nat, nMutations: real, nCrossovers: real)
    requires len <= capacity
    requires 0.0 <= nMutations <= 1.0 && 0.0 <= nCrossovers <= 1.0 && nMutations + nCrossovers <= 1.0
    ensures var remaining := capacity - len;
            var owed := Todo(nMutations, remaining) + Todo(nCrossovers, remaining);
            BredSize(len, capacity, nMutations, nCrossovers) == capacity <==> remaining - owed <= len + owed
  {
    TodosFit(nMutations, nCrossovers, capacity - len);
  }

  /**
   * `bred` is what `breed` makes of `kept` in a population of `capacity`:
   * `kept` stays as a prefix, `origins` explains every child, the children
   * come in the mix the rates fix, and the size is `BredSize`.
   */
  ghost predicate BredFrom<O>(kept: seq<O>, bred: seq<O>, capacity: nat, nMutations: real, nCrossovers: real,
                              mutate: O -> O, crossover: (O, O) -> (O, O), origins: seq<Origin>)
    requires 0.0 <= nMutations <= 1.0 && 0.0 <= nCrossovers <= 1.0 && nMutations + nCrossovers <= 1.0
  {
    && |kept| <= |bred| && bred[..|kept|] == kept
    && Bred(bred, |kept|, origins, mutate, crossover)
    && |kept| <= capacity
    && BredMix(origins, |kept|, capacity, nMutations, nCrossovers)
    && |bred| == BredSize(|kept|, capacity, nMutations, nCrossovers)
  }

  /**
   * `breed`: while children are owed, draws two distinct parents and pushes
   * one crossover child and/or one mutant of one of them; then pushes clones
   * of distinct organisms for the room left. The rates are asserted; `pop_cap
   * - pop_len` must not underflow; and with fewer than two organisms the
   * parent draw never succeeds, so the loop only ends if nothing is owed.
   */
  method Breed<O>(p: Population<O>, nMutations: real, nCrossovers: real, mutate: O -> O, crossover: (O, O) -> (O, O))
    returns (ghost origins: seq<Origin>)
    requires |p.members| <= p.capacity
    requires 0.0 <= nMutations <= 1.0 && 0.0 <= nCrossovers <= 1.0 && nMutations + nCrossovers <= 1.0
    requires |p.members| >= 2
             || Todo(nMutations, p.capacity - |p.members|) + Todo(nCrossovers, p.capacity - |p.members|) == 0
    modifies p`members
    ensures |p.members| == BredSize(|old(p.members)|, p.capacity, nMutations, nCrossovers)
    ensures p.members[..|old(p.members)|] == old(p.members)
    ensures Bred(p.members, |old(p.members)|, origins, mutate, crossover)
    ensures BredMix(origins, |old(p.members)|, p.capacity, nMutations, nCrossovers)
  {
    var popCap := p.capacity;
    var popLen := |p.members|;
    var remainingSize: nat := popCap - popLen;
    TodosFit(nMutations, nCrossovers, remainingSize);
    var nMutationsTodo: nat := Todo(nMutations, remainingSize);
    var nCrossoversTodo: nat := Todo(nCrossovers, remainingSize);
    ghost var owed := nMutationsTodo + nCrossoversTodo;
    ghost var paired;
    remainingSize, paired := BreedPairs(p, remainingSize, nMutationsTodo, nCrossoversTodo, mutate, crossover);
    origins := FillWithClones(p, remainingSize, popLen, paired, mutate, crossover);
    assert origins[..owed] == paired;
  }

  /**
   * The loop of `breed`: while children are owed, draws two distinct parents
   * and pushes one crossover child if one is owed, then one mutant of one of
   * the two parents if one is owed. With fewer than two organisms the parent
   * draw never succeeds, so the loop only ends if nothing is owed.
   */
  method BreedPairs<O>(p: Population<O>, remainingSize: nat, nMutationsTodo: nat, nCrossoversTodo: nat,
                       mutate: O -> O, crossover: (O, O) -> (O, O))
    returns (remaining: nat, ghost origins: seq<Origin>)
    requires nCrossoversTodo + nMutationsTodo <= remainingSize
    requires |p.members| >= 2 || nCrossoversTodo + nMutationsTodo == 0
    modifies p`members
    ensures remaining == remainingSize - (nCrossoversTodo + nMutationsTodo)
    ensures Bred(p.members, |old(p.members)|, origins, mutate, crossover)
    ensures p.members[..|old(p.members)|] == old(p.members)
    ensures CrossoverCount(origins) == nCrossoversTodo && MutationCount(origins) == nMutationsTodo
    ensures |origins| == nCrossoversTodo + nMutationsTodo
  {
    var popLen := |p.members|;
    var nCrossoversLeft, nMutationsLeft := nCrossoversTodo, nMutationsTodo;
    remaining := remainingSize;
    origins := [];
    while nCrossoversLeft + nMutationsLeft > 0
      invariant remaining + |origins| == remainingSize
      invariant |origins| + nCrossoversLeft + nMutationsLeft == nCrossoversTodo + nMutationsTodo
      invariant Bred(p.members, popLen, origins, mutate, crossover)
      invariant p.members[..popLen] == old(p.members)
      invariant CrossoverCount(origins) + nCrossoversLeft == nCrossoversTodo
      invariant MutationCount(origins) + nMutationsLeft == nMutationsTodo
      decreases nCrossoversLeft + nMutationsLeft
    {
      var a, b :| 0 <= a < |p.members| && 0 <= b < |p.members| && a != b;
      var parentA, parentB := p.members[a], p.members[b];
      if nCrossoversLeft > 0 {
        var second: bool :| true;
        var children := crossover(parentA, parentB);
        var child := if second then children.1 else children.0;
        remaining, nCrossoversLeft := remaining - 1, nCrossoversLeft - 1;
        origins := PushBred(p, popLen, origins, Crossover(a, b, second), child, mutate, crossover);
      }
      if nMutationsLeft > 0 {
        var first: bool :| true;
        var selected := if first then a else b;
        var mutant := mutate(p.members[selected]);
        remaining, nMutationsLeft := remaining - 1, nMutationsLeft - 1;
        origins := PushBred(p, popLen, origins, Mutation(selected), mutant, mutate, crossover);
      }
    }
  }

  /** Pushes a child that `o` explains, and records `o`. */
  method PushBred<O>(p: Population<O>, ghost from: nat, ghost origins: seq<Origin>, o: Origin, x: O,
                     mutate: O -> O, crossover: (O, O) -> (O, O))
    returns (ghost next: seq<Origin>)
    requires Bred(p.members, from, origins, mutate, crossover)
    requires Explains(o, p.members + [x], |p.members|, mutate, crossover)
    modifies p`members
    ensures p.members == old(p.members) + [x] && next == origins + [o]
    ensures Bred(p.members, from, next, mutate, crossover)
    ensures CrossoverCount(next) == CrossoverCount(origins) + (if o.Crossover? then 1 else 0)
    ensures MutationCount(next) == MutationCount(origins) + (if o.Mutation? then 1 else 0)
  {
    BredPush(p.members, from, origins, o, x, mutate, crossover);
    CountsPush(origins, o);
    p.Push(x);
    next := origins + [o];
  }

  /** The end of `breed`: clones of `remainingSize` distinct organisms, or of all of them if there are fewer. */
  method FillWithClones<O>(p: Population<O>, remainingSize: nat, ghost from: nat, ghost origins: seq<Origin>,
                           mutate: O -> O, crossover: (O, O) -> (O, O))
    returns (ghost all: seq<Origin>)
    requires Bred(p.members, from, origins, mutate, crossover)
    modifies p`members
    ensures |p.members| == |old(p.members)| + Min(remainingSize, |old(p.members)|)
    ensures p.members[..|old(p.members)|] == old(p.members)
    ensures Bred(p.members, from, all, mutate, crossover)
    ensures |origins| <= |all| && all[..|origins|] == origins && DistinctClones(all[|origins|..], |old(p.members)|)
  {
    var pool := p.members;
    var amount := Min(remainingSize, |pool|);
    ghost var identity := seq(amount, k requires 0 <= k => k);
    assert forall k :: 0 <= k < amount ==> identity[k] == k;
    var picks: seq<nat> :| |picks| == amount && (forall k :: 0 <= k < amount ==> picks[k] < |pool|)
                           && forall j, k :: 0 <= j < k < amount ==> picks[j] != picks[k];
    all := origins;
    for k := 0 to amount
      invariant |p.members| == |pool| + k && p.members[..|pool|] == pool
      invariant Bred(p.members, from, all, mutate, crossover)
      invariant |all| == |origins| + k && all[..|origins|] == origins
      invariant forall i :: 0 <= i < k ==> all[|origins| + i] == Clone(picks[i])
    {
      var clone := pool[picks[k]];
      assert p.members[picks[k]] == clone;
      BredPush(p.members, from, all, Clone(picks[k]), clone, mutate, crossover);
      p.Push(clone);
      all := all + [Clone(picks[k])];
    }
    ghost var clones := all[|origins|..];
    assert forall i :: 0 <= i < |clones| ==> clones[i] == Clone(picks[i]);
  }


  /** The phases after which `execute` offers the population to a hook. */
  datatype Stage = AfterInit | AfterEvaluate | AfterRank | AfterSelection | AfterBreed

  /**
   * A hook looks at the population and either lets the run go on (`None`)
   * or stops it with an error.
   */
  type Hook<!O, E> = seq<O> -> Option<E>

  /** `EventHooks`: one optional hook per phase. */
  datatype EventHooks<!O, E> = EventHooks(
    afterInit: Option<Hook<O, E>>,
    afterEvaluate: Option<Hook<O, E>>,
    afterRank: Option<Hook<O, E>>,
    afterSelection: Option<Hook<O, E>>,
    afterBreed: Option<Hook<O, E>>)
  {
    /** The hook registered for `stage`, if any. */
    function HookAt(stage: Stage): Option<Hook<O, E>>
    {
      match stage
      case AfterInit => afterInit
      case AfterEvaluate => afterEvaluate
      case AfterRank => afterRank
      case AfterSelection => afterSelection
      case AfterBreed => afterBreed
    }

    /** `with_after_init`: registers `f` after initialisation and keeps every other hook. */
    function WithAfterInit(f: Hook<O, E>): (h: EventHooks<O, E>)
      ensures forall s :: h.HookAt(s) == if s == AfterInit then Some(f) else HookAt(s)
    {
      this.(afterInit := Some(f))
    }

    /** `with_after_evaluate`: registers `f` after evaluation and keeps every other hook. */
    function WithAfterEvaluate(f: Hook<O, E>): (h: EventHooks<O, E>)
      ensures forall s :: h.HookAt(s) == if s == AfterEvaluate then Some(f) else HookAt(s)
    {
      this.(afterEvaluate := Some(f))
    }

    /** `with_after_selection`: registers `f` after selection and keeps every other hook. */
    function WithAfterSelection(f: Hook<O, E>): (h: EventHooks<O, E>)
      ensures forall s :: h.HookAt(s) == if s == AfterSelection then Some(f) else HookAt(s)
    {
      this.(afterSelection := Some(f))
    }

    /** `with_after_rank`: registers `f` after ranking and keeps every other hook. */
    function WithAfterRank(f: Hook<O, E>): (h: EventHooks<O, E>)
      ensures forall s :: h.HookAt(s) == if s == AfterRank then Some(f) else HookAt(s)
    {
      this.(afterRank := Some(f))
    }

    /** `with_after_breed`: registers `f` after breeding and keeps every other hook. */
    function WithAfterBreed(f: Hook<O, E>): (h: EventHooks<O, E>)
      ensures forall s :: h.HookAt(s) == if s == AfterBreed then Some(f) else HookAt(s)
    {
      this.(afterBreed := Some(f))
    }
  }

  /** `EventHooks::default`: no hook anywhere. */
  function DefaultHooks<O, E>(): (h: EventHooks<O, E>)
    ensures forall s :: h.HookAt(s) == None
  {
    EventHooks(None, None, None, None, None)
  }

  /** What offering `members` at `stage` gives: nothing without a hook, else the hook's answer. */
  function RunHook<O, E>(hooks: EventHooks<O, E>, stage: Stage, members: seq<O>): (r: Option<E>)
    ensures hooks.HookAt(stage).None? ==> r.None?
  {
    match hooks.HookAt(stage)
    case None => None
    case Some(f) => f(members)
  }

  /** The phases of one generation, in order. */
  const Generation: seq<Stage> := [AfterEvaluate, AfterRank, AfterSelection, AfterBreed]

  /** The hook points of a whole run of `generations` generations. */
  function Schedule(generations: nat): (s: seq<Stage>)
    ensures |s| == 1 + 4 * generations && s[0] == AfterInit
  {
    if generations == 0 then [AfterInit] else Schedule(generations - 1) + Generation
  }

  /** A shorter run's hook points begin a longer run's. */
  lemma {:induction false} SchedulePrefix(i: nat, j: nat)
    requires i <= j
    ensures Schedule(i) <= Schedule(j)
  {
    if i < j {
      SchedulePrefix(i, j - 1);
    }
  }

  /**
   * From a full population, one generation ends full again: selection keeps
   * at least two parents unless no child is owed, and the clones find enough
   * organisms to fill the room left.
   */
  ghost predicate Sustains(populationSize: nat, gap: real, nMutations: real, nCrossovers: real)
    requires 0.0 <= gap <= 1.0
    requires 0.0 <= nMutations <= 1.0 && 0.0 <= nCrossovers <= 1.0 && nMutations + nCrossovers <= 1.0
  {
    var kept := populationSize - Cutoff(gap, populationSize);
    var room := populationSize - kept;
    && (kept >= 2 || Todo(nMutations, room) + Todo(nCrossovers, room) == 0)
    && BredSize(kept, populationSize, nMutations, nCrossovers) == populationSize
  }

  /** With half the population kept, any valid rates sustain a population of three or more. */
  lemma HalfGapSustains(populationSize: nat, nMutations: real, nCrossovers: real)
    requires populationSize >= 3
    requires 0.0 <= nMutations <= 1.0 && 0.0 <= nCrossovers <= 1.0 && nMutations + nCrossovers <= 1.0
    ensures Sustains(populationSize, 0.5, nMutations, nCrossovers)
  {
    var n := populationSize;
    assert (1.0 - 0.5) * n as real == (n / 2) as real + (n % 2) as real / 2.0;
    assert Cutoff(0.5, n) == n / 2;
    FillsToCapacity(n - n / 2, n, nMutations, nCrossovers);
  }

  /** `after` is `before` with every organism put through `evalSetFitness`. */
  ghost predicate Evaluated<O>(before: seq<O>, after: seq<O>, evalSetFitness: O -> O)
  {
    |after| == |before| && forall i :: 0 <= i < |before| ==> after[i] == evalSetFitness(before[i])
  }

  /**
   * The populations `seen` offered after the phases of one generation that
   * began at `before` are what the phases make of it: the evaluated
   * population, its stable sort, the sort without its last `Cutoff`
   * organisms, and that with bred children appended as `origins` explains,
   * in the mix of crossover children, mutants and distinct clones the rates
   * fix for refilling to the size of `before`, and in the number `breed`
   * reaches.
   */
  ghost predicate PhasesFollow<O>(before: seq<O>, seen: seq<seq<O>>, gap: real, nMutations: real, nCrossovers: real,
                                  evalSetFitness: O -> O, fitness: O -> Option<real>,
                                  mutate: O -> O, crossover: (O, O) -> (O, O),
                                  origins: seq<Origin>)
    requires 0.0 <= gap <= 1.0
    requires 0.0 <= nMutations <= 1.0 && 0.0 <= nCrossovers <= 1.0 && nMutations + nCrossovers <= 1.0
  {
    && (|seen| > 0 ==> Evaluated(before, seen[0], evalSetFitness))
    && (|seen| > 1 ==> seen[1] == Sorting.Sort(seen[0], fitness))
    && (|seen| > 2 ==> seen[2] == seen[1][..|seen[1]| - Cutoff(gap, |seen[1]|)])
    && (|seen| > 3 ==> BredFrom(seen[2], seen[3], |before|, nMutations, nCrossovers, mutate, crossover, origins))
  }

  /**
   * Generation `g` of a run whose hooks were offered `seen`: it begins at
   * `seen[4 * g]`, the population after initialisation or after the previous
   * breed, and the populations offered within it follow by its phases.
   */
  ghost predicate GenerationFollows<O>(seen: seq<seq<O>>, g: nat, gap: real, nMutations: real, nCrossovers: real,
                                       evalSetFitness: O -> O, fitness: O -> Option<real>,
                                       mutate: O -> O, crossover: (O, O) -> (O, O),
                                       origins: seq<Origin>)
    requires 0.0 <= gap <= 1.0
    requires 0.0 <= nMutations <= 1.0 && 0.0 <= nCrossovers <= 1.0 && nMutations + nCrossovers <= 1.0
  {
    && 4 * g + 1 < |seen|
    && PhasesFollow(seen[4 * g], seen[4 * g + 1..Min(|seen|, 4 * g + 5)], gap, nMutations, nCrossovers,
                    evalSetFitness, fitness, mutate, crossover, origins)
  }

  /** A finished generation still follows once later populations are offered. */
  lemma GenerationFollowsExtend<O>(seen: seq<seq<O>>, more: seq<seq<O>>, g: nat,
                                   gap: real, nMutations: real, nCrossovers: real,
                                   evalSetFitness: O -> O, fitness: O -> Option<real>,
                                   mutate: O -> O, crossover: (O, O) -> (O, O),
                                   origins: seq<Origin>)
    requires 0.0 <= gap <= 1.0
    requires 0.0 <= nMutations <= 1.0 && 0.0 <= nCrossovers <= 1.0 && nMutations + nCrossovers <= 1.0
    requires 4 * g + 5 <= |seen|
    requires GenerationFollows(seen, g, gap, nMutations, nCrossovers,
                               evalSetFitness, fitness, mutate, crossover, origins)
    ensures GenerationFollows(seen + more, g, gap, nMutations, nCrossovers,
                              evalSetFitness, fitness, mutate, crossover, origins)
  {
    var all := seen + more;
    assert all[4 * g] == seen[4 * g];
    assert all[4 * g + 1..4 * g + 5] == seen[4 * g + 1..4 * g + 5];
  }

  /** The generation that begins at the last population offered, and offers `offered`, follows. */
  lemma GenerationFollowsNext<O>(seen: seq<seq<O>>, offered: seq<seq<O>>, g: nat,
                                 gap: real, nMutations: real, nCrossovers: real,
                                 evalSetFitness: O -> O, fitness: O -> Option<real>,
                                 mutate: O -> O, crossover: (O, O) -> (O, O),
                                 origins: seq<Origin>)
    requires 0.0 <= gap <= 1.0
    requires 0.0 <= nMutations <= 1.0 && 0.0 <= nCrossovers <= 1.0 && nMutations + nCrossovers <= 1.0
             && |seen| == 4 * g + 1 && 0 < |offered| <= 4
    requires PhasesFollow(seen[|seen| - 1], offered, gap, nMutations, nCrossovers,
                          evalSetFitness, fitness, mutate, crossover, origins)
    ensures GenerationFollows(seen + offered, g, gap, nMutations, nCrossovers,
                              evalSetFitness, fitness, mutate, crossover, origins)
  {
    var all := seen + offered;
    assert all[4 * g] == seen[|seen| - 1];
    assert all[4 * g + 1..Min(|all|, 4 * g + 5)] == offered;
  }

  /** Under `Sustains`, a generation that begins at the population size ends at it. */
  lemma GenerationRefills<O>(before: seq<O>, seen: seq<seq<O>>, gap: real, nMutations: real, nCrossovers: real,
                             evalSetFitness: O -> O, fitness: O -> Option<real>,
                             mutate: O -> O, crossover: (O, O) -> (O, O), origins: seq<Origin>)
    requires 0.0 <= gap <= 1.0
    requires 0.0 <= nMutations <= 1.0 && 0.0 <= nCrossovers <= 1.0 && nMutations + nCrossovers <= 1.0
    requires Sustains(|before|, gap, nMutations, nCrossovers) && |seen| > 3
    requires PhasesFollow(before, seen, gap, nMutations, nCrossovers, evalSetFitness, fitness, mutate, crossover, origins)
    ensures |seen[3]| == |before|
  {
    assert |seen[1]| == |seen[0]| == |before|;
    assert |seen[2]| == |before| - Cutoff(gap, |before|);
  }

  /**
   * Under `Sustains`, every generation of a run that began at
   * `populationSize` organisms starts at that size: the population offered
   * after each breed is back at `populationSize`.
   */
  lemma {:induction false} EveryGenerationFull<O>(seen: seq<seq<O>>, origins: seq<seq<Origin>>, g: nat,
                                                  populationSize: nat, gap: real, nMutations: real, nCrossovers: real,
                                                  evalSetFitness: O -> O, fitness: O -> Option<real>,
                                                  mutate: O -> O, crossover: (O, O) -> (O, O))
    requires 0.0 <= gap <= 1.0
    requires 0.0 <= nMutations <= 1.0 && 0.0 <= nCrossovers <= 1.0 && nMutations + nCrossovers <= 1.0
    requires Sustains(populationSize, gap, nMutations, nCrossovers)
    requires |seen| > 0 && |seen[0]| == populationSize
    requires forall h :: 0 <= h < |origins| ==>
               GenerationFollows(seen, h, gap, nMutations, nCrossovers,
                                 evalSetFitness, fitness, mutate, crossover, origins[h])
    requires g <= |origins| && 4 * g < |seen|
    ensures |seen[4 * g]| == populationSize
  {
    if g > 0 {
      EveryGenerationFull(seen, origins, g - 1, populationSize, gap, nMutations, nCrossovers,
                          evalSetFitness, fitness, mutate, crossover);
      assert GenerationFollows(seen, g - 1, gap, nMutations, nCrossovers,
                               evalSetFitness, fitness, mutate, crossover, origins[g - 1]);
      var phases := seen[4 * g - 3..4 * g + 1];
      assert seen[4 * (g - 1) + 1..Min(|seen|, 4 * (g - 1) + 5)] == phases;
      GenerationRefills(seen[4 * (g - 1)], phases, gap, nMutations, nCrossovers,
                        evalSetFitness, fitness, mutate, crossover, origins[g - 1]);
      assert phases[3] == seen[4 * g];
    }
  }

  /**
   * `execute`: initialises the population, offers it to `after_init`, then
   * for each generation evaluates, ranks, selects and breeds, offering the
   * population to the matching hook after each phase. The first hook that
   * answers an error ends the run with that error. Hooks only look at the
   * population here. `stages` and `seen` record, in order, the hook points
   * reached and the population each was offered; `origins` holds, for each
   * generation begun, where its bred organisms come from.
   */
  method Execute<O, E>(populationSize: nat, maxGenerations: nat, gap: real, nMutations: real, nCrossovers: real,
                       generate: nat -> O, evalSetFitness: O -> O, fitness: O -> Option<real>,
                       mutate: O -> O, crossover: (O, O) -> (O, O), hooks: EventHooks<O, E>)
    returns (r: Result<Population<O>, E>, ghost stages: seq<Stage>, ghost seen: seq<seq<O>>,
             ghost origins: seq<seq<Origin>>)
    requires 0.0 <= gap <= 1.0
    requires 0.0 <= nMutations <= 1.0 && 0.0 <= nCrossovers <= 1.0 && nMutations + nCrossovers <= 1.0
    requires maxGenerations > 0 ==> Sustains(populationSize, gap, nMutations, nCrossovers)
    ensures |seen| == |stages| > 0 && stages <= Schedule(maxGenerations)
    ensures |seen[0]| == populationSize && forall i :: 0 <= i < populationSize ==> seen[0][i] == generate(i)
    ensures |origins| == (|seen| + 2) / 4
    ensures forall g :: 0 <= g < |origins| ==>
              GenerationFollows(seen, g, gap, nMutations, nCrossovers,
                                evalSetFitness, fitness, mutate, crossover, origins[g])
    ensures forall k :: 0 <= k < |stages| - 1 ==> RunHook(hooks, stages[k], seen[k]).None?
    ensures r.Ok? ==> stages == Schedule(maxGenerations) && RunHook(hooks, AfterInit, seen[0]).None?
    ensures r.Ok? ==> RunHook(hooks, stages[|stages| - 1], seen[|stages| - 1]).None?
    ensures r.Err? ==> RunHook(hooks, stages[|stages| - 1], seen[|stages| - 1]) == Some(r.error)
    ensures r.Ok? ==> fresh(r.value) && r.value.capacity == populationSize && r.value.members == seen[|seen| - 1]
    ensures r.Ok? ==> |r.value.members| == populationSize
  {
    var population := InitPopulation(populationSize, generate);
    stages, seen, origins := [AfterInit], [population.members], [];
    var err := RunHook(hooks, AfterInit, population.members);
    if err.Some? {
      return Err(err.value), stages, seen, origins;
    }
    assert seen[0] == Generated(populationSize, generate);
    for generation := 0 to maxGenerations
      invariant fresh(population) && population.capacity == populationSize && |population.members| == populationSize
      invariant stages == Schedule(generation) && |seen| == |stages| && |origins| == generation
      invariant seen[0] == Generated(populationSize, generate)
      invariant population.members == seen[|seen| - 1]
      invariant forall g :: 0 <= g < |origins| ==>
                  GenerationFollows(seen, g, gap, nMutations, nCrossovers,
                                    evalSetFitness, fitness, mutate, crossover, origins[g])
      invariant forall k :: 0 <= k < |stages| ==> RunHook(hooks, stages[k], seen[k]).None?
    {
      ghost var reached, offered, bred;
      err, reached, offered, bred := RunGeneration(population, gap, nMutations, nCrossovers,
                                                   evalSetFitness, fitness, mutate, crossover, hooks);
      ScheduleGrows(generation, maxGenerations, reached);
      RunExtends(seen, offered, origins, bred, gap, nMutations, nCrossovers,
                 evalSetFitness, fitness, mutate, crossover);
      stages, seen, origins := stages + reached, seen + offered, origins + [bred];
      if err.Some? {
        return Err(err.value), stages, seen, origins;
      }
    }
    return Ok(population), stages, seen, origins;
  }

  /** Appending one more generation's offered populations keeps every generation's phases in order. */
  lemma RunExtends<O>(seen: seq<seq<O>>, offered: seq<seq<O>>, origins: seq<seq<Origin>>, bred: seq<Origin>,
                      gap: real, nMutations: real, nCrossovers: real,
                      evalSetFitness: O -> O, fitness: O -> Option<real>,
                      mutate: O -> O, crossover: (O, O) -> (O, O))
    requires 0.0 <= gap <= 1.0
    requires 0.0 <= nMutations <= 1.0 && 0.0 <= nCrossovers <= 1.0 && nMutations + nCrossovers <= 1.0
             && |seen| == 1 + 4 * |origins| && 0 < |offered| <= 4
    requires forall g :: 0 <= g < |origins| ==>
               GenerationFollows(seen, g, gap, nMutations, nCrossovers,
                                 evalSetFitness, fitness, mutate, crossover, origins[g])
    requires PhasesFollow(seen[|seen| - 1], offered, gap, nMutations, nCrossovers,
                          evalSetFitness, fitness, mutate, crossover, bred)
    ensures var all := origins + [bred];
            forall g :: 0 <= g < |all| ==>
              GenerationFollows(seen + offered, g, gap, nMutations, nCrossovers,
                                evalSetFitness, fitness, mutate, crossover, all[g])
  {
    var all := origins + [bred];
    forall g | 0 <= g < |all|
      ensures GenerationFollows(seen + offered, g, gap, nMutations, nCrossovers,
                                evalSetFitness, fitness, mutate, crossover, all[g])
    {
      if g < |origins| {
        assert all[g] == origins[g];
        GenerationFollowsExtend(seen, offered, g, gap, nMutations, nCrossovers,
                                evalSetFitness, fitness, mutate, crossover, origins[g]);
      } else {
        assert all[g] == bred;
        GenerationFollowsNext(seen, offered, g, gap, nMutations, nCrossovers,
                              evalSetFitness, fitness, mutate, crossover, bred);
      }
    }
  }

  /** Hook points reached within generation `g + 1` of a longer run extend the first `g` generations' as a prefix. */
  lemma ScheduleGrows(g: nat, generations: nat, reached: seq<Stage>)
    requires g < generations && reached <= Generation
    ensures Schedule(g) + reached <= Schedule(generations)
    ensures reached == Generation ==> Schedule(g) + reached == Schedule(g + 1)
  {
    SchedulePrefix(g + 1, generations);
    assert Schedule(g + 1) == Schedule(g) + Generation;
    assert Schedule(g) + reached <= Schedule(g) + Generation;
  }

  /**
   * One pass of the generation loop of `execute` on a full population:
   * evaluate, rank, select and breed, offering the population to the
   * matching hook after each phase and stopping at the first error.
   */
  method RunGeneration<O, E>(population: Population<O>, gap: real, nMutations: real, nCrossovers: real,
                             evalSetFitness: O -> O, fitness: O -> Option<real>,
                             mutate: O -> O, crossover: (O, O) -> (O, O), hooks: EventHooks<O, E>)
    returns (err: Option<E>, ghost stages: seq<Stage>, ghost seen: seq<seq<O>>, ghost origins: seq<Origin>)
    requires 0.0 <= gap <= 1.0
    requires 0.0 <= nMutations <= 1.0 && 0.0 <= nCrossovers <= 1.0 && nMutations + nCrossovers <= 1.0
    requires |population.members| == population.capacity && Sustains(population.capacity, gap, nMutations, nCrossovers)
    modifies population`members
    ensures 0 < |stages| == |seen| && stages <= Generation
    ensures PhasesFollow(old(population.members), seen, gap, nMutations, nCrossovers,
                         evalSetFitness, fitness, mutate, crossover, origins)
    ensures population.members == seen[|seen| - 1]
    ensures forall k :: 0 <= k < |stages| - 1 ==> RunHook(hooks, stages[k], seen[k]).None?
    ensures err == RunHook(hooks, stages[|stages| - 1], seen[|stages| - 1])
    ensures err.None? ==> stages == Generation && |population.members| == population.capacity
  {
    ghost var before := population.members;
    origins := [];
    ghost var first;
    err, stages, first := EvaluateAndRank(population, evalSetFitness, fitness, hooks);
    if err.Some? {
      PhasesCompose(before, first, [], population.capacity, gap, nMutations, nCrossovers,
                    evalSetFitness, fitness, mutate, crossover, origins);
      seen := first + [];
      return;
    }
    err, stages, seen, origins := FinishGeneration(population, before, stages, first, gap, nMutations, nCrossovers,
                                                   evalSetFitness, fitness, mutate, crossover, hooks);
  }

  /**
   * The rest of a generation once evaluation and ranking have passed their
   * hooks: `apply_selection` and `breed`, each followed by its hook, with
   * what the whole generation offered. (The phases fact is compared with
   * `true` so that the verifier takes it as one fact instead of unfolding it
   * conjunct by conjunct in this heap-changing method.)
   */
  method FinishGeneration<O, E>(population: Population<O>, ghost before: seq<O>, ghost first: seq<Stage>,
                                ghost ranked: seq<seq<O>>, gap: real, nMutations: real, nCrossovers: real,
                                ghost evalSetFitness: O -> O, fitness: O -> Option<real>,
                                mutate: O -> O, crossover: (O, O) -> (O, O), hooks: EventHooks<O, E>)
    returns (err: Option<E>, ghost stages: seq<Stage>, ghost seen: seq<seq<O>>, ghost origins: seq<Origin>)
    requires 0.0 <= gap <= 1.0
    requires 0.0 <= nMutations <= 1.0 && 0.0 <= nCrossovers <= 1.0 && nMutations + nCrossovers <= 1.0
    requires |population.members| == population.capacity == |before|
    requires Sustains(population.capacity, gap, nMutations, nCrossovers)
    requires |first| == |ranked| == 2 && first == [AfterEvaluate, AfterRank]
    requires Evaluated(before, ranked[0], evalSetFitness) && ranked[1] == Sorting.Sort(ranked[0], fitness)
    requires population.members == ranked[1]
    requires RunHook(hooks, first[0], ranked[0]).None? && RunHook(hooks, first[1], ranked[1]).None?
    requires population.members != [] ==>
               Programs.FitnessLe(fitness(population.members[0]), fitness(population.members[|population.members| - 1]))
    modifies population`members
    ensures 0 < |stages| == |seen| && stages <= Generation
    ensures PhasesFollow(before, seen, gap, nMutations, nCrossovers,
                         evalSetFitness, fitness, mutate, crossover, origins) == true
    ensures population.members == seen[|seen| - 1]
    ensures forall k :: 0 <= k < |stages| - 1 ==> RunHook(hooks, stages[k], seen[k]).None?
    ensures err == RunHook(hooks, stages[|stages| - 1], seen[|stages| - 1])
    ensures err.None? ==> stages == Generation && |population.members| == population.capacity
  {
    ghost var rest, offered;
    err, rest, offered, origins := SelectAndBreed(population, gap, nMutations, nCrossovers, fitness,
                                                  mutate, crossover, hooks);
    PhasesCompose(before, ranked, offered, population.capacity, gap, nMutations, nCrossovers,
                  evalSetFitness, fitness, mutate, crossover, origins);
    HooksCompose(hooks, first, ranked, rest, offered, err);
    stages, seen := first + rest, ranked + offered;
  }

  /** The hook points of both halves of a generation, the first half having passed, run in order. */
  lemma HooksCompose<O, E>(hooks: EventHooks<O, E>, stages: seq<Stage>, seen: seq<seq<O>>,
                           rest: seq<Stage>, offered: seq<seq<O>>, err: Option<E>)
    requires |stages| == |seen| == 2 && stages == [AfterEvaluate, AfterRank]
    requires RunHook(hooks, stages[0], seen[0]).None? && RunHook(hooks, stages[1], seen[1]).None?
    requires 0 < |rest| == |offered| && rest <= [AfterSelection, AfterBreed]
    requires |rest| > 1 ==> RunHook(hooks, rest[0], offered[0]).None?
    requires err == RunHook(hooks, rest[|rest| - 1], offered[|rest| - 1])
    ensures var all, shown := stages + rest, seen + offered;
            && 0 < |all| == |shown| && all <= Generation
            && shown[|shown| - 1] == offered[|offered| - 1] && all[|all| - 1] == rest[|rest| - 1]
            && err == RunHook(hooks, all[|all| - 1], shown[|all| - 1])
            && (forall k :: 0 <= k < |all| - 1 ==> RunHook(hooks, all[k], shown[k]).None?)
            && (|rest| == 2 ==> all == Generation)
  {
    var all, shown := stages + rest, seen + offered;
    forall k | 0 <= k < |all| - 1
      ensures RunHook(hooks, all[k], shown[k]).None?
    {
      if k < 2 {
        assert all[k] == stages[k] && shown[k] == seen[k];
      } else {
        assert k == 2 && all[k] == rest[0] && shown[k] == offered[0];
      }
    }
  }

  /**
   * The first half of a generation: `evaluate` and `rank`, each followed by
   * its hook.
   */
  method EvaluateAndRank<O, E>(population: Population<O>, evalSetFitness: O -> O, fitness: O -> Option<real>,
                               hooks: EventHooks<O, E>)
    returns (err: Option<E>, ghost stages: seq<Stage>, ghost seen: seq<seq<O>>)
    modifies population`members
    ensures 0 < |stages| == |seen| && stages <= [AfterEvaluate, AfterRank]
    ensures Evaluated(old(population.members), seen[0], evalSetFitness)
    ensures |seen| > 1 ==> seen[1] == Sorting.Sort(seen[0], fitness)
    ensures population.members == seen[|seen| - 1] && |population.members| == |old(population.members)|
    ensures |stages| > 1 ==> RunHook(hooks, stages[0], seen[0]).None?
    ensures err == RunHook(hooks, stages[|stages| - 1], seen[|stages| - 1])
    ensures err.None? ==> stages == [AfterEvaluate, AfterRank] && (population.members != [] ==>
              Programs.FitnessLe(fitness(population.members[0]), fitness(population.members[|population.members| - 1])))
  {
    Evaluate(population, evalSetFitness);
    ghost var evaluated := population.members;
    stages, seen := [AfterEvaluate], [evaluated];
    err := RunHook(hooks, AfterEvaluate, population.members);
    if err.Some? {
      return;
    }
    Rank(population, fitness);
    SortedEnds(population.members, fitness);
    stages, seen := [AfterEvaluate, AfterRank], [evaluated, population.members];
    err := RunHook(hooks, AfterRank, population.members);
  }

  /**
   * The populations the first half of a generation offered (evaluated, then
   * ranked), followed by those the second half offered (selected, then
   * bred), follow the phases.
   */
  lemma PhasesCompose<O>(before: seq<O>, first: seq<seq<O>>, offered: seq<seq<O>>, capacity: nat,
                         gap: real, nMutations: real, nCrossovers: real,
                         evalSetFitness: O -> O, fitness: O -> Option<real>,
                         mutate: O -> O, crossover: (O, O) -> (O, O), origins: seq<Origin>)
    requires 0.0 <= gap <= 1.0
    requires 0.0 <= nMutations <= 1.0 && 0.0 <= nCrossovers <= 1.0 && nMutations + nCrossovers <= 1.0
    requires 0 < |first| <= 2 && |offered| <= 2 && (|offered| > 0 ==> |first| == 2) && capacity == |before|
    requires Evaluated(before, first[0], evalSetFitness)
    requires |first| > 1 ==> first[1] == Sorting.Sort(first[0], fitness)
    requires |offered| > 0 ==> offered[0] == first[1][..|first[1]| - Cutoff(gap, |first[1]|)]
    requires |offered| > 1 ==>
               BredFrom(offered[0], offered[1], capacity, nMutations, nCrossovers, mutate, crossover, origins) == true
    ensures PhasesFollow(before, first + offered, gap, nMutations, nCrossovers,
                         evalSetFitness, fitness, mutate, crossover, origins)
  {
    var seen := first + offered;
    assert seen[0] == first[0];
    assert |seen| > 1 ==> seen[1] == first[1];
    assert |seen| > 2 ==> seen[2] == offered[0];
    assert |seen| > 3 ==> seen[3] == offered[1];
  }

  /**
   * The second half of a generation: `apply_selection` and `breed` on a
   * full, ranked population, each followed by its hook.
   */
  method SelectAndBreed<O, E>(population: Population<O>, gap: real, nMutations: real, nCrossovers: real,
                              fitness: O -> Option<real>, mutate: O -> O, crossover: (O, O) -> (O, O),
                              hooks: EventHooks<O, E>)
    returns (err: Option<E>, ghost stages: seq<Stage>, ghost seen: seq<seq<O>>, ghost origins: seq<Origin>)
    requires 0.0 <= gap <= 1.0
    requires 0.0 <= nMutations <= 1.0 && 0.0 <= nCrossovers <= 1.0 && nMutations + nCrossovers <= 1.0
    requires |population.members| == population.capacity && Sustains(population.capacity, gap, nMutations, nCrossovers)
    requires population.members != [] ==>
               Programs.FitnessLe(fitness(population.members[0]), fitness(population.members[|population.members| - 1]))
    modifies population`members
    ensures 0 < |stages| == |seen| && stages <= [AfterSelection, AfterBreed]
    ensures seen[0] == old(population.members)[..|old(population.members)| - Cutoff(gap, |old(population.members)|)]
    ensures |seen| > 1 ==> BredFrom(seen[0], seen[1], population.capacity, nMutations, nCrossovers, mutate, crossover, origins)
    ensures population.members == seen[|seen| - 1]
    ensures |stages| > 1 ==> RunHook(hooks, stages[0], seen[0]).None?
    ensures err == RunHook(hooks, stages[|stages| - 1], seen[|stages| - 1])
    ensures err.None? ==> |stages| == 2 && |population.members| == population.capacity
  {
    origins := [];
    ApplySelection(population, gap, fitness);
    ghost var kept := population.members;
    stages, seen := [AfterSelection], [kept];
    err := RunHook(hooks, AfterSelection, population.members);
    if err.Some? {
      return;
    }
    origins := Breed(population, nMutations, nCrossovers, mutate, crossover);
    stages, seen := [AfterSelection, AfterBreed], [kept, population.members];
    err := RunHook(hooks, AfterBreed, population.members);
  }

  /** The ends of a sorted sequence are in order, as `apply_selection` asserts. */
  lemma SortedEnds<O>(s: seq<O>, fitness: O -> Option<real>)
    requires Sorting.SortedBy(s, fitness)
    ensures s != [] ==> Programs.FitnessLe(fitness(s[0]), fitness(s[|s| - 1]))
  {
    if |s| == 1 {
      Programs.CompareFitnessFlips(fitness(s[0]), fitness(s[0]));
    }
  }
}
